/** Bit vectors as the allocators use them: find a run of equal bits and flip it. */
module Bitmap {
  import opened Common

  /** All `cnt` bits from `start` on equal `value`. */
  predicate AllAre(b: seq<bool>, start: nat, cnt: nat, value: bool) {
    start + cnt <= |b| && forall i :: start <= i < start + cnt ==> b[i] == value
  }

  /** `b` with the `cnt` elements from `start` on set to `value`. */
  function SetMultiple<T>(b: seq<T>, start: nat, cnt: nat, value: T): (r: seq<T>)
    requires start + cnt <= |b|
    ensures |r| == |b|
    ensures forall i :: 0 <= i < |b| ==> r[i] == if start <= i < start + cnt then value else b[i]
  {
    seq(|b|, i requires 0 <= i < |b| => if start <= i < start + cnt then value else b[i])
  }

  /** The first run of `cnt` bits equal to `value`. */
  ghost predicate IsFirstRun(b: seq<bool>, cnt: nat, value: bool, r: Option<nat>) {
    match r
    case Some(i) => AllAre(b, i, cnt, value) && forall j :: 0 <= j < i ==> !AllAre(b, j, cnt, value)
    case None => forall j :: 0 <= j ==> !AllAre(b, j, cnt, value)
  }

  /** There are `cnt` clear bits in a row somewhere. */
  ghost predicate Fits(b: seq<bool>, cnt: nat) {
    exists i: nat :: AllAre(b, i, cnt, false)
  }

  /** It lies in the map, all its bits have the value, and every run of that length that starts before it, or any if
      there is none, has a bit of the other. */
  lemma FirstRunMeans(b: seq<bool>, cnt: nat, value: bool, r: Option<nat>, j: nat)
    requires IsFirstRun(b, cnt, value, r) && j + cnt <= |b|
    ensures r.Some? ==> r.value + cnt <= |b| && forall i :: r.value <= i < r.value + cnt ==> b[i] == value
    ensures (r.Some? ==> j < r.value) ==> exists i :: j <= i < j + cnt && b[i] != value
  {
    assert (r.Some? ==> j < r.value) ==> !AllAre(b, j, cnt, value);
  }

  /** After a stretch of the other value, the first run is where the stretch ends. */
  lemma FirstRunAt(b: seq<bool>, cnt: nat, value: bool, r: Option<nat>, k: nat)
    requires IsFirstRun(b, cnt, value, r) && cnt > 0 && AllAre(b, k, cnt, value)
    requires forall j :: 0 <= j < k ==> b[j] != value
    ensures r == Some(k)
  {
    forall j | 0 <= j < k ensures !AllAre(b, j, cnt, value) {
      assert b[j] != value;
    }
  }

  /** Clearing a run that was just claimed restores the map. */
  lemma FlipBack(m: seq<bool>, start: nat, cnt: nat)
    requires AllAre(m, start, cnt, false)
    ensures SetMultiple(SetMultiple(m, start, cnt, true), start, cnt, false) == m
  {
  }

  method Contains(b: seq<bool>, start: nat, cnt: nat, value: bool) returns (found: bool)
    requires start + cnt <= |b|
    ensures found <==> !AllAre(b, start, cnt, !value)
  {
    for i := 0 to cnt
      invariant forall j :: start <= j < start + i ==> b[j] != value
    {
      if b[start + i] == value {
        return true;
      }
    }
    return false;
  }

  method Scan(b: seq<bool>, cnt: nat, value: bool) returns (r: Option<nat>)
    ensures IsFirstRun(b, cnt, value, r)
    ensures cnt == 0 ==> r == Some(0)
  {
    if cnt <= |b| {
      var last := |b| - cnt;
      for i := 0 to last + 1
        invariant forall j :: 0 <= j < i ==> !AllAre(b, j, cnt, value)
        invariant cnt == 0 ==> i == 0
      {
        var found := Contains(b, i, cnt, !value);
        if !found {
          return Some(i);
        }
      }
    }
    return None;
  }

  /** Flips the first run of `cnt` bits equal to `value`, if there is one. */
  method ScanAndFlip(b: seq<bool>, cnt: nat, value: bool) returns (r: Option<nat>, b': seq<bool>)
    ensures IsFirstRun(b, cnt, value, r)
    ensures cnt == 0 ==> r == Some(0)
    ensures r.Some? ==> AllAre(b, r.value, cnt, value) && b' == SetMultiple(b, r.value, cnt, !value)
    ensures r.None? ==> b' == b
  {
    b' := b;
    r := Scan(b, cnt, value);
    if r.Some? {
      b' := SetMultiple(b, r.value, cnt, !value);
    }
  }
}
