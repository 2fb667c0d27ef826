/** Heap sort and binary search over untyped elements: arrays of bytes cut into elements of a given size. */
module Sort {
  import opened Common

  type Elem = seq<byte>

  /** A comparison returns a negative number, zero or a positive one. */
  type Cmp = (Elem, Elem) -> int

  // ---------------------------------------------------------------- the order

  predicate Mirrored(cmp: Cmp, x: Elem, y: Elem) {
    cmp(x, y) > 0 <==> cmp(y, x) < 0
  }

  predicate Chained(cmp: Cmp, x: Elem, y: Elem, z: Elem) {
    cmp(x, y) <= 0 && cmp(y, z) <= 0 ==> cmp(x, z) <= 0
  }

  /** `cmp` is a total preorder on elements of the given size. */
  ghost predicate TotalPreorder(cmp: Cmp, size: nat) {
    && (forall x: Elem, y: Elem {:trigger Mirrored(cmp, x, y)} :: |x| == size && |y| == size ==> Mirrored(cmp, x, y))
    && forall x: Elem, y: Elem, z: Elem {:trigger Chained(cmp, x, y, z)} ::
      |x| == size && |y| == size && |z| == size ==> Chained(cmp, x, y, z)
  }

  predicate Sized(s: seq<Elem>, size: nat) {
    forall i :: 0 <= i < |s| ==> |s[i]| == size
  }

  /** Elements `i` and `j`, counted from 1, are in order. */
  predicate Le(cmp: Cmp, s: seq<Elem>, i: nat, j: nat)
    requires 1 <= i <= |s| && 1 <= j <= |s|
  {
    cmp(s[i - 1], s[j - 1]) <= 0
  }

  lemma LeTrans(cmp: Cmp, size: nat, s: seq<Elem>, i: nat, j: nat, k: nat)
    requires TotalPreorder(cmp, size) && Sized(s, size)
    requires 1 <= i <= |s| && 1 <= j <= |s| && 1 <= k <= |s|
    ensures Le(cmp, s, i, j) && Le(cmp, s, j, k) ==> Le(cmp, s, i, k)
  {
    assert Chained(cmp, s[i - 1], s[j - 1], s[k - 1]);
  }

  lemma LeTotal(cmp: Cmp, size: nat, s: seq<Elem>, i: nat, j: nat)
    requires TotalPreorder(cmp, size) && Sized(s, size) && 1 <= i <= |s| && 1 <= j <= |s|
    ensures !Le(cmp, s, i, j) ==> Le(cmp, s, j, i)
    ensures Le(cmp, s, i, i)
  {
    assert Mirrored(cmp, s[i - 1], s[j - 1]) && Mirrored(cmp, s[i - 1], s[i - 1]);
  }

  // ---------------------------------------------------------------- the algorithm on elements

  function Swap(s: seq<Elem>, i: nat, j: nat): (r: seq<Elem>)
    requires 1 <= i <= |s| && 1 <= j <= |s|
    ensures |r| == |s| && multiset(r) == multiset(s)
    ensures forall k :: 0 <= k < |s| ==> r[k] == if k == i - 1 then s[j - 1] else if k == j - 1 then s[i - 1] else s[k]
  {
    s[i - 1 := s[j - 1]][j - 1 := s[i - 1]]
  }

  /** The largest of element `i` and its children. */
  function Largest(cmp: Cmp, s: seq<Elem>, i: nat, cnt: nat): (m: nat)
    requires 1 <= i <= cnt <= |s|
    ensures m == i || (m / 2 == i && m <= cnt)
  {
    var max := if 2 * i <= cnt && !Le(cmp, s, 2 * i, i) then 2 * i else i;
    if 2 * i + 1 <= cnt && !Le(cmp, s, 2 * i + 1, max) then 2 * i + 1 else max
  }

  /** Floats element `i` down the heap of the first `cnt` elements. */
  function Heapify(cmp: Cmp, s: seq<Elem>, i: nat, cnt: nat): (r: seq<Elem>)
    requires 1 <= i && cnt <= |s|
    ensures |r| == |s|
    decreases cnt - i
  {
    if i > cnt || Largest(cmp, s, i, cnt) == i then s
    else Heapify(cmp, Swap(s, i, Largest(cmp, s, i, cnt)), Largest(cmp, s, i, cnt), cnt)
  }

  function BuildHeap(cmp: Cmp, s: seq<Elem>, i: nat): (r: seq<Elem>)
    ensures |r| == |s|
    decreases i
  {
    if i == 0 then s else BuildHeap(cmp, Heapify(cmp, s, i, |s|), i - 1)
  }

  lemma BuildHeapStep(cmp: Cmp, s: seq<Elem>, i: nat, t: seq<Elem>, next: nat)
    requires i == next + 1 && t == Heapify(cmp, s, i, |s|)
    ensures BuildHeap(cmp, s, i) == BuildHeap(cmp, t, next)
  {
    assert i - 1 == next;
  }

  /** Building the heap from element `i` down gives `goal`. */
  ghost predicate BuildsTo(cmp: Cmp, s: seq<Elem>, i: nat, goal: seq<Elem>) {
    BuildHeap(cmp, s, i) == goal
  }

  lemma BuildStep(cmp: Cmp, s: seq<Elem>, i: nat, s': seq<Elem>, i': nat, goal: seq<Elem>)
    requires BuildsTo(cmp, s, i, goal) && i == i' + 1 && s' == Heapify(cmp, s, i, |s|)
    ensures BuildsTo(cmp, s', i', goal)
  {
    BuildHeapStep(cmp, s, i, s', i');
  }

  function SortDown(cmp: Cmp, s: seq<Elem>, i: nat): (r: seq<Elem>)
    requires i <= |s|
    ensures |r| == |s|
    decreases i
  {
    if i <= 1 then s else SortDown(cmp, Heapify(cmp, Swap(s, 1, i), 1, i - 1), i - 1)
  }

  lemma SortDownStep(cmp: Cmp, s: seq<Elem>, i: nat, s': seq<Elem>, i': nat)
    requires 1 < i <= |s| && s' == Heapify(cmp, Swap(s, 1, i), 1, i - 1) && i' == i - 1
    ensures SortDown(cmp, s, i) == SortDown(cmp, s', i')
  {
  }

  function HeapSort(cmp: Cmp, s: seq<Elem>): seq<Elem> {
    SortDown(cmp, BuildHeap(cmp, s, |s| / 2), |s|)
  }

  // ---------------------------------------------------------------- heaps

  /** From element `lo` on, no child among the first `cnt` elements is larger than its parent. */
  ghost predicate HeapFrom(cmp: Cmp, s: seq<Elem>, lo: nat, cnt: nat) {
    1 <= lo && cnt <= |s| && forall j :: 2 <= j <= cnt && j / 2 >= lo ==> Le(cmp, s, j, j / 2)
  }

  /** The same but for element `i`, which may be too small for its place; its children fit under its parent. */
  ghost predicate HeapBut(cmp: Cmp, s: seq<Elem>, lo: nat, i: nat, cnt: nat) {
    && 1 <= lo <= i && cnt <= |s|
    && (forall j :: 2 <= j <= cnt && j / 2 >= lo && j / 2 != i ==> Le(cmp, s, j, j / 2))
    && forall j :: 2 <= j <= cnt && j / 2 == i && i / 2 >= lo ==> Le(cmp, s, j, i / 2)
  }

  lemma LargestOfThree(cmp: Cmp, size: nat, s: seq<Elem>, i: nat, cnt: nat)
    requires TotalPreorder(cmp, size) && Sized(s, size) && 1 <= i <= cnt <= |s|
    ensures Le(cmp, s, i, Largest(cmp, s, i, cnt))
    ensures 2 * i <= cnt ==> Le(cmp, s, 2 * i, Largest(cmp, s, i, cnt))
    ensures 2 * i + 1 <= cnt ==> Le(cmp, s, 2 * i + 1, Largest(cmp, s, i, cnt))
  {
    LeTotal(cmp, size, s, i, i);
    if 2 * i <= cnt {
      LeTotal(cmp, size, s, 2 * i, i);
    }
    if 2 * i + 1 <= cnt {
      LeTotal(cmp, size, s, 2 * i, 2 * i);
      LeTotal(cmp, size, s, 2 * i + 1, 2 * i);
      LeTotal(cmp, size, s, 2 * i + 1, i);
      LeTrans(cmp, size, s, i, 2 * i, 2 * i + 1);
      LeTrans(cmp, size, s, 2 * i, i, 2 * i + 1);
    }
  }

  lemma LargestIs(cmp: Cmp, size: nat, s: seq<Elem>, i: nat, cnt: nat)
    requires TotalPreorder(cmp, size) && Sized(s, size) && 1 <= i <= cnt <= |s|
    ensures Le(cmp, s, i, Largest(cmp, s, i, cnt))
    ensures forall j :: 2 <= j <= cnt && j / 2 == i ==> Le(cmp, s, j, Largest(cmp, s, i, cnt))
  {
    LargestOfThree(cmp, size, s, i, cnt);
    forall j | 2 <= j <= cnt && j / 2 == i ensures Le(cmp, s, j, Largest(cmp, s, i, cnt)) {
      assert j == 2 * i || j == 2 * i + 1;
    }
  }

  /** One step of floating down keeps the heap whole but for the new place. */
  lemma FloatStep(cmp: Cmp, size: nat, s: seq<Elem>, lo: nat, i: nat, cnt: nat)
    requires TotalPreorder(cmp, size) && Sized(s, size) && HeapBut(cmp, s, lo, i, cnt) && i <= cnt
    requires Largest(cmp, s, i, cnt) != i
    ensures var m := Largest(cmp, s, i, cnt);
      Sized(Swap(s, i, m), size) && HeapBut(cmp, Swap(s, i, m), lo, m, cnt)
  {
    var m := Largest(cmp, s, i, cnt);
    LargestIs(cmp, size, s, i, cnt);
    var t := Swap(s, i, m);
    forall j | 2 <= j <= cnt && j / 2 >= lo && j / 2 != m ensures Le(cmp, t, j, j / 2) {
      if j / 2 == i {
        assert Le(cmp, s, j, m) && Le(cmp, s, i, m);
      } else if j == i {
        assert Le(cmp, s, m, i / 2);
      } else {
        assert Le(cmp, s, j, j / 2);
      }
    }
    forall j | 2 <= j <= cnt && j / 2 == m && m / 2 >= lo ensures Le(cmp, t, j, m / 2) {
      assert Le(cmp, s, j, j / 2);
    }
  }

  /** heapify restores the heap from its index on. */
  lemma {:induction false} HeapifyMakesHeap(cmp: Cmp, size: nat, s: seq<Elem>, lo: nat, i: nat, cnt: nat)
    requires TotalPreorder(cmp, size) && Sized(s, size) && HeapBut(cmp, s, lo, i, cnt)
    ensures HeapFrom(cmp, Heapify(cmp, s, i, cnt), lo, cnt)
    decreases cnt - i
  {
    if i <= cnt {
      var m := Largest(cmp, s, i, cnt);
      if m != i {
        FloatStep(cmp, size, s, lo, i, cnt);
        HeapifyMakesHeap(cmp, size, Swap(s, i, m), lo, m, cnt);
      } else {
        LargestIs(cmp, size, s, i, cnt);
      }
    }
  }

  /** It only rearranges the first `cnt` elements. */
  lemma {:induction false} HeapifyRearranges(cmp: Cmp, size: nat, s: seq<Elem>, i: nat, cnt: nat)
    requires 1 <= i && cnt <= |s| && Sized(s, size)
    ensures multiset(Heapify(cmp, s, i, cnt)) == multiset(s) && Sized(Heapify(cmp, s, i, cnt), size)
    ensures forall k :: cnt <= k < |s| ==> Heapify(cmp, s, i, cnt)[k] == s[k]
    decreases cnt - i
  {
    if i <= cnt && Largest(cmp, s, i, cnt) != i {
      var m := Largest(cmp, s, i, cnt);
      var t := Swap(s, i, m);
      assert Sized(t, size);
      HeapifyRearranges(cmp, size, t, m, cnt);
      HeapifyStep(cmp, s, i, cnt, t, m);
    }
  }

  lemma HeapifyStep(cmp: Cmp, s: seq<Elem>, i: nat, cnt: nat, t: seq<Elem>, m: nat)
    requires 1 <= i <= cnt <= |s| && m == Largest(cmp, s, i, cnt) != i && t == Swap(s, i, m)
    ensures Heapify(cmp, s, i, cnt) == Heapify(cmp, t, m, cnt)
  {
  }

  /** The first `cnt` elements are at most `x`. */
  ghost predicate AtMost(cmp: Cmp, s: seq<Elem>, cnt: nat, x: Elem) {
    cnt <= |s| && forall k :: 0 <= k < cnt ==> cmp(s[k], x) <= 0
  }

  lemma {:induction false} HeapifyKeepsAtMost(cmp: Cmp, s: seq<Elem>, i: nat, cnt: nat, x: Elem)
    requires 1 <= i && AtMost(cmp, s, cnt, x)
    ensures AtMost(cmp, Heapify(cmp, s, i, cnt), cnt, x)
    decreases cnt - i
  {
    if i <= cnt && Largest(cmp, s, i, cnt) != i {
      var m := Largest(cmp, s, i, cnt);
      HeapifyKeepsAtMost(cmp, Swap(s, i, m), m, cnt, x);
    }
  }

  /** The root of a heap is the largest. */
  lemma {:induction false} RootIsLargest(cmp: Cmp, size: nat, s: seq<Elem>, cnt: nat, j: nat)
    requires TotalPreorder(cmp, size) && Sized(s, size) && HeapFrom(cmp, s, 1, cnt) && 1 <= j <= cnt
    ensures Le(cmp, s, j, 1)
  {
    if j == 1 {
      LeTotal(cmp, size, s, 1, 1);
    } else {
      RootIsLargest(cmp, size, s, cnt, j / 2);
      LeTrans(cmp, size, s, j, j / 2, 1);
    }
  }

  lemma HeapBelowIsHeapBut(cmp: Cmp, s: seq<Elem>, i: nat, cnt: nat)
    requires 1 <= i && HeapFrom(cmp, s, i + 1, cnt)
    ensures HeapBut(cmp, s, i, i, cnt)
  {
  }

  lemma {:induction false} BuildHeapMakesHeap(cmp: Cmp, size: nat, s: seq<Elem>, i: nat)
    requires TotalPreorder(cmp, size) && Sized(s, size) && HeapFrom(cmp, s, i + 1, |s|)
    ensures var r := BuildHeap(cmp, s, i);
      HeapFrom(cmp, r, 1, |s|) && multiset(r) == multiset(s) && Sized(r, size)
    decreases i
  {
    if i > 0 {
      var t := Heapify(cmp, s, i, |s|);
      HeapBelowIsHeapBut(cmp, s, i, |s|);
      assert HeapFrom(cmp, t, i, |s|) by {
        HeapifyMakesHeap(cmp, size, s, i, i, |s|);
      }
      assert multiset(t) == multiset(s) && Sized(t, size) by {
        HeapifyRearranges(cmp, size, s, i, |s|);
      }
      var next := i - 1;
      BuildHeapMakesHeap(cmp, size, t, next);
      BuildHeapStep(cmp, s, i, t, next);
    }
  }

  ghost predicate SortedFrom(cmp: Cmp, s: seq<Elem>, from: nat) {
    forall j, k :: from <= j < k < |s| ==> cmp(s[j], s[k]) <= 0
  }

  /** Elements from number `i` on are sorted, and nothing before them is larger than any of them. */
  ghost predicate TailDone(cmp: Cmp, s: seq<Elem>, i: nat) {
    i <= |s| && SortedFrom(cmp, s, i) && forall k :: i <= k < |s| ==> AtMost(cmp, s, i, s[k])
  }

  lemma SwappedIsHeapBut(cmp: Cmp, s: seq<Elem>, i: nat)
    requires 1 < i <= |s| && HeapFrom(cmp, s, 1, i)
    ensures HeapBut(cmp, Swap(s, 1, i), 1, 1, i - 1)
  {
    forall j | 2 <= j <= i - 1 && j / 2 != 1 ensures Le(cmp, Swap(s, 1, i), j, j / 2) {
      assert Le(cmp, s, j, j / 2);
    }
  }

  lemma SwappedTail(cmp: Cmp, size: nat, s: seq<Elem>, i: nat)
    requires TotalPreorder(cmp, size) && Sized(s, size) && 1 < i <= |s|
    requires HeapFrom(cmp, s, 1, i) && TailDone(cmp, s, i)
    ensures TailDone(cmp, Swap(s, 1, i), i - 1)
  {
    var t := Swap(s, 1, i);
    forall k | i - 1 <= k < |s| ensures AtMost(cmp, t, i - 1, t[k]) {
      RootTops(cmp, size, s, i, k);
    }
    forall j, k | i - 1 <= j < k < |s| ensures cmp(t[j], t[k]) <= 0 {
      assert AtMost(cmp, s, i, s[k]);
    }
  }

  lemma HeapifyKeepsTail(cmp: Cmp, size: nat, t: seq<Elem>, cnt: nat)
    requires Sized(t, size) && TailDone(cmp, t, cnt)
    ensures TailDone(cmp, Heapify(cmp, t, 1, cnt), cnt)
  {
    var r := Heapify(cmp, t, 1, cnt);
    HeapifyRearranges(cmp, size, t, 1, cnt);
    forall k | cnt <= k < |r| ensures AtMost(cmp, r, cnt, r[k]) {
      HeapifyKeepsAtMost(cmp, t, 1, cnt, t[k]);
    }
  }

  /** Moving the root behind the heap and floating the new root down. */
  lemma SortStep(cmp: Cmp, size: nat, s: seq<Elem>, i: nat)
    requires TotalPreorder(cmp, size) && Sized(s, size) && 1 < i <= |s|
    requires HeapFrom(cmp, s, 1, i) && TailDone(cmp, s, i)
    ensures var r := Heapify(cmp, Swap(s, 1, i), 1, i - 1);
      HeapFrom(cmp, r, 1, i - 1) && TailDone(cmp, r, i - 1) && Sized(r, size) && multiset(r) == multiset(s)
  {
    var t := Swap(s, 1, i);
    var r := Heapify(cmp, t, 1, i - 1);
    assert Sized(t, size) && multiset(t) == multiset(s);
    assert HeapFrom(cmp, r, 1, i - 1) by {
      SwappedIsHeapBut(cmp, s, i);
      HeapifyMakesHeap(cmp, size, t, 1, 1, i - 1);
    }
    assert TailDone(cmp, r, i - 1) by {
      SwappedTail(cmp, size, s, i);
      HeapifyKeepsTail(cmp, size, t, i - 1);
    }
    HeapifyRearranges(cmp, size, t, 1, i - 1);
  }

  lemma RootTops(cmp: Cmp, size: nat, s: seq<Elem>, i: nat, k: nat)
    requires TotalPreorder(cmp, size) && Sized(s, size) && 1 < i <= |s| && i - 1 <= k < |s|
    requires HeapFrom(cmp, s, 1, i) && TailDone(cmp, s, i)
    ensures AtMost(cmp, Swap(s, 1, i), i - 1, Swap(s, 1, i)[k])
  {
    var t := Swap(s, 1, i);
    forall j | 0 <= j < i - 1 ensures cmp(t[j], t[k]) <= 0 {
      if k == i - 1 {
        RootIsLargest(cmp, size, s, i, if j == 0 then i else j + 1);
      } else {
        assert AtMost(cmp, s, i, s[k]);
      }
    }
  }

  lemma {:induction false} SortDownSorts(cmp: Cmp, size: nat, s: seq<Elem>, i: nat)
    requires TotalPreorder(cmp, size) && Sized(s, size) && i <= |s|
    requires (i > 0 ==> HeapFrom(cmp, s, 1, i)) && TailDone(cmp, s, i)
    ensures var r := SortDown(cmp, s, i);
      SortedFrom(cmp, r, 0) && multiset(r) == multiset(s) && Sized(r, size)
    decreases i
  {
    if i > 1 {
      SortStep(cmp, size, s, i);
      SortDownSorts(cmp, size, Heapify(cmp, Swap(s, 1, i), 1, i - 1), i - 1);
    } else {
      forall j, k | 0 <= j < k < |s| ensures cmp(s[j], s[k]) <= 0 {
        assert AtMost(cmp, s, i, s[k]);
      }
    }
  }

  /** Whatever the comparison does, heap sort loses nothing. */
  lemma SortKeepsElements(cmp: Cmp, size: nat, s: seq<Elem>)
    requires Sized(s, size)
    ensures multiset(HeapSort(cmp, s)) == multiset(s)
  {
    BuildKeepsElements(cmp, size, s, |s| / 2);
    SortDownKeepsElements(cmp, size, BuildHeap(cmp, s, |s| / 2), |s|);
  }

  lemma {:induction false} BuildKeepsElements(cmp: Cmp, size: nat, s: seq<Elem>, i: nat)
    requires Sized(s, size)
    ensures multiset(BuildHeap(cmp, s, i)) == multiset(s) && Sized(BuildHeap(cmp, s, i), size)
    decreases i
  {
    if i > 0 {
      var t, next := Heapify(cmp, s, i, |s|), i - 1;
      HeapifyRearranges(cmp, size, s, i, |s|);
      BuildKeepsElements(cmp, size, t, next);
      BuildHeapStep(cmp, s, i, t, next);
    }
  }

  lemma {:induction false} SortDownKeepsElements(cmp: Cmp, size: nat, s: seq<Elem>, i: nat)
    requires Sized(s, size) && i <= |s|
    ensures multiset(SortDown(cmp, s, i)) == multiset(s)
    decreases i
  {
    if i > 1 {
      var t := Swap(s, 1, i);
      assert Sized(t, size) && multiset(t) == multiset(s);
      HeapifyRearranges(cmp, size, t, 1, i - 1);
      SortDownKeepsElements(cmp, size, Heapify(cmp, t, 1, i - 1), i - 1);
    }
  }

  /** Heap sort orders any array under any total preorder, and loses nothing. */
  lemma HeapSortSorts(cmp: Cmp, size: nat, s: seq<Elem>)
    requires TotalPreorder(cmp, size) && Sized(s, size)
    ensures var r := HeapSort(cmp, s);
      SortedFrom(cmp, r, 0) && multiset(r) == multiset(s) && Sized(r, size)
  {
    BuildHeapMakesHeap(cmp, size, s, |s| / 2);
    SortDownSorts(cmp, size, BuildHeap(cmp, s, |s| / 2), |s|);
  }

  // ---------------------------------------------------------------- bytes and elements

  lemma InArray(k: nat, cnt: nat, size: nat)
    requires k < cnt
    ensures 0 <= k * size && k * size + size <= cnt * size
  {
    MulLe(k + 1, cnt, size);
    MulLe(0, k, size);
  }

  /** Where elements `k` and `m`, counted from 0, lie to each other. */
  lemma Apart(k: nat, m: nat, size: nat)
    ensures k < m ==> k * size + size <= m * size
    ensures m < k ==> m * size + size <= k * size
  {
    if k < m {
      MulLe(k + 1, m, size);
    } else if m < k {
      MulLe(m + 1, k, size);
    }
  }

  function ElementAt(b: seq<byte>, cnt: nat, size: nat, k: nat): (e: Elem)
    requires |b| == cnt * size && k < cnt
    ensures |e| == size
  {
    InArray(k, cnt, size);
    b[k * size..k * size + size]
  }

  /** The array as elements. */
  function Elements(b: seq<byte>, cnt: nat, size: nat): (s: seq<Elem>)
    requires |b| == cnt * size
    ensures |s| == cnt && Sized(s, size)
  {
    seq(cnt, k requires 0 <= k < cnt => ElementAt(b, cnt, size, k))
  }

  /** From `was` to `now` the first `n` bytes at `x` and at `y` have changed places. */
  ghost predicate Exchanged(was: seq<byte>, now: seq<byte>, x: nat, y: nat, n: nat) {
    && |now| == |was| && x + n <= |was| && y + n <= |was|
    && forall k {:trigger now[k]} :: 0 <= k < |was| ==>
      now[k] == if x <= k < x + n then was[y + (k - x)] else if y <= k < y + n then was[x + (k - y)] else was[k]
  }

  /** Exchanging the bytes of two elements swaps them and touches no other. */
  lemma ExchangeSwaps(was: seq<byte>, now: seq<byte>, cnt: nat, size: nat, i: nat, j: nat)
    requires |was| == cnt * size && 1 <= i <= cnt && 1 <= j <= cnt
    requires 0 <= (i - 1) * size && 0 <= (j - 1) * size && Exchanged(was, now, (i - 1) * size, (j - 1) * size, size)
    ensures Elements(now, cnt, size) == Swap(Elements(was, cnt, size), i, j)
  {
    forall m | 0 <= m < cnt ensures Elements(now, cnt, size)[m] == Swap(Elements(was, cnt, size), i, j)[m] {
      ElementExchanged(was, now, cnt, size, i, j, m);
    }
  }

  lemma ElementExchanged(was: seq<byte>, now: seq<byte>, cnt: nat, size: nat, i: nat, j: nat, m: nat)
    requires |was| == cnt * size && 1 <= i <= cnt && 1 <= j <= cnt && m < cnt
    requires 0 <= (i - 1) * size && 0 <= (j - 1) * size && Exchanged(was, now, (i - 1) * size, (j - 1) * size, size)
    ensures ElementAt(now, cnt, size, m) ==
      ElementAt(was, cnt, size, if m == i - 1 then j - 1 else if m == j - 1 then i - 1 else m)
  {
    var n := if m == i - 1 then j - 1 else if m == j - 1 then i - 1 else m;
    InArray(m, cnt, size);
    InArray(n, cnt, size);
    Apart(m, i - 1, size);
    Apart(m, j - 1, size);
    Apart(i - 1, j - 1, size);
    SliceExchanged(was, now, (i - 1) * size, (j - 1) * size, size, m * size, n * size);
  }

  lemma ByteExchanged(was: seq<byte>, now: seq<byte>, x: nat, y: nat, n: nat, k: nat)
    requires Exchanged(was, now, x, y, n) && k < |was|
    ensures now[k] == if x <= k < x + n then was[y + (k - x)] else if y <= k < y + n then was[x + (k - y)] else was[k]
  {
  }

  lemma SliceExchanged(was: seq<byte>, now: seq<byte>, x: nat, y: nat, n: nat, p: nat, q: nat)
    requires Exchanged(was, now, x, y, n) && p + n <= |was| && q + n <= |was|
    requires (p == x && q == y) || (p == y && q == x) || (q == p && (p + n <= x || x + n <= p) && (p + n <= y || y + n <= p))
    requires x == y || x + n <= y || y + n <= x
    ensures now[p..p + n] == was[q..q + n]
  {
    var s, t := now[p..p + n], was[q..q + n];
    forall k | 0 <= k < n ensures s[k] == t[k] {
      ByteExchanged(was, now, x, y, n, p + k);
    }
  }

  // ---------------------------------------------------------------- the code

  method ExchangeBytes(a: array<byte>, x: nat, y: nat, n: nat)
    requires x + n <= a.Length && y + n <= a.Length && (x == y || x + n <= y || y + n <= x)
    modifies a
    ensures Exchanged(old(a[..]), a[..], x, y, n)
  {
    ghost var was := a[..];
    for k := 0 to n
      invariant forall j {:trigger a[j]} :: 0 <= j < a.Length ==>
        a[j] == if x <= j < x + k then was[y + (j - x)] else if y <= j < y + k then was[x + (j - y)] else was[j]
    {
      var t := a[x + k];
      a[x + k] := a[y + k];
      a[y + k] := t;
    }
  }

  /** Swaps elements `i` and `j`, counted from 1, byte by byte. */
  method DoSwap(a: array<byte>, i: nat, j: nat, size: nat, ghost cnt: nat)
    requires a.Length == cnt * size && 1 <= i <= cnt && 1 <= j <= cnt
    modifies a
    ensures Elements(a[..], cnt, size) == Swap(old(Elements(a[..], cnt, size)), i, j)
  {
    InArray(i - 1, cnt, size);
    InArray(j - 1, cnt, size);
    Apart(i - 1, j - 1, size);
    ghost var was := a[..];
    ExchangeBytes(a, (i - 1) * size, (j - 1) * size, size);
    ExchangeSwaps(was, a[..], cnt, size, i, j);
  }

  method DoCompare(a: array<byte>, i: nat, j: nat, size: nat, cmp: Cmp, ghost cnt: nat) returns (r: int)
    requires a.Length == cnt * size && 1 <= i <= cnt && 1 <= j <= cnt
    ensures r <= 0 <==> Le(cmp, Elements(a[..], cnt, size), i, j)
  {
    InArray(i - 1, cnt, size);
    InArray(j - 1, cnt, size);
    var x, y := (i - 1) * size, (j - 1) * size;
    assert a[x..x + size] == a[..][x..x + size] && a[y..y + size] == a[..][y..y + size];
    r := cmp(a[x..x + size], a[y..y + size]);
  }

  /** The largest of element `i` and its children, if any. */
  method PickLargest(a: array<byte>, i: nat, n: nat, size: nat, cmp: Cmp, ghost cnt: nat) returns (max: nat)
    requires a.Length == cnt * size && 1 <= i <= n <= cnt
    ensures max == Largest(cmp, Elements(a[..], cnt, size), i, n)
  {
    ghost var s := Elements(a[..], cnt, size);
    var left, right := 2 * i, 2 * i + 1;
    max := i;
    if left <= n {
      var c := DoCompare(a, left, max, size, cmp, cnt);
      if c > 0 {
        max := left;
      }
    }
    if right <= n {
      var c := DoCompare(a, right, max, size, cmp, cnt);
      if c > 0 {
        max := right;
      }
    }
  }

  method HeapifyArray(a: array<byte>, start: nat, n: nat, size: nat, cmp: Cmp, ghost cnt: nat)
    requires a.Length == cnt * size && 1 <= start && n <= cnt
    modifies a
    ensures Elements(a[..], cnt, size) == Heapify(cmp, old(Elements(a[..], cnt, size)), start, n)
  {
    ghost var goal := Heapify(cmp, Elements(a[..], cnt, size), start, n);
    ghost var s := Elements(a[..], cnt, size);
    if start > n {
      return;
    }
    var i := start;
    while true
      invariant 1 <= i <= n && s == Elements(a[..], cnt, size) && Heapify(cmp, s, i, n) == goal
      decreases n - i
    {
      var max := PickLargest(a, i, n, size, cmp, cnt);
      if max == i {
        break;
      }
      DoSwap(a, i, max, size, cnt);
      s := Swap(s, i, max);
      i := max;
    }
  }

  method RepairFrom(a: array<byte>, i: nat, size: nat, cmp: Cmp, cnt: nat) returns (ghost s: seq<Elem>)
    requires a.Length == cnt * size && 1 <= i <= cnt
    modifies a
    ensures s == Elements(a[..], cnt, size) && |s| == cnt
    ensures s == Heapify(cmp, old(Elements(a[..], cnt, size)), i, cnt)
  {
    HeapifyArray(a, i, cnt, size, cmp, cnt);
    s := Elements(a[..], cnt, size);
  }

  method BuildHeapArray(a: array<byte>, cnt: nat, size: nat, cmp: Cmp)
    requires size > 0 && a.Length == cnt * size
    modifies a
    ensures Elements(a[..], cnt, size) == BuildHeap(cmp, old(Elements(a[..], cnt, size)), cnt / 2)
  {
    ghost var s := Elements(a[..], cnt, size);
    ghost var goal := BuildHeap(cmp, s, cnt / 2);
    var i: nat := cnt / 2;
    while i > 0
      invariant i <= cnt && |s| == cnt && s == Elements(a[..], cnt, size) && BuildsTo(cmp, s, i, goal)
    {
      ghost var was := s;
      s := RepairFrom(a, i, size, cmp, cnt);
      ghost var next := i - 1;
      BuildStep(cmp, was, i, s, next, goal);
      i := i - 1;
      assert i == next;
    }
  }

  /** Moves the largest element behind the heap and repairs the heap. */
  method PutRootBehind(a: array<byte>, i: nat, size: nat, cmp: Cmp, ghost cnt: nat) returns (ghost s: seq<Elem>)
    requires a.Length == cnt * size && 1 < i <= cnt
    modifies a
    ensures s == Elements(a[..], cnt, size) && |s| == cnt
    ensures s == Heapify(cmp, Swap(old(Elements(a[..], cnt, size)), 1, i), 1, i - 1)
  {
    DoSwap(a, 1, i, size, cnt);
    HeapifyArray(a, 1, i - 1, size, cmp, cnt);
    s := Elements(a[..], cnt, size);
  }

  method SortDownArray(a: array<byte>, cnt: nat, size: nat, cmp: Cmp)
    requires size > 0 && a.Length == cnt * size
    modifies a
    ensures Elements(a[..], cnt, size) == SortDown(cmp, old(Elements(a[..], cnt, size)), cnt)
  {
    ghost var s := Elements(a[..], cnt, size);
    ghost var goal := SortDown(cmp, s, cnt);
    var i := cnt;
    while i > 1
      invariant 0 <= i <= cnt && |s| == cnt && s == Elements(a[..], cnt, size) && SortDown(cmp, s, i) == goal
    {
      ghost var was := s;
      s := PutRootBehind(a, i, size, cmp, cnt);
      ghost var next := i - 1;
      SortDownStep(cmp, was, i, s, next);
      i := i - 1;
      assert i == next;
    }
  }

  /** Sorts the array in place. */
  method SortArray(a: array<byte>, cnt: nat, size: nat, cmp: Cmp)
    requires size > 0 && a.Length == cnt * size
    modifies a
    ensures Elements(a[..], cnt, size) == HeapSort(cmp, old(Elements(a[..], cnt, size)))
    ensures TotalPreorder(cmp, size) ==> SortedFrom(cmp, Elements(a[..], cnt, size), 0)
    ensures multiset(Elements(a[..], cnt, size)) == multiset(old(Elements(a[..], cnt, size)))
  {
    ghost var start := Elements(a[..], cnt, size);
    BuildHeapArray(a, cnt, size, cmp);
    SortDownArray(a, cnt, size, cmp);
    SortKeepsElements(cmp, size, start);
    if TotalPreorder(cmp, size) {
      HeapSortSorts(cmp, size, start);
    }
  }

  // ---------------------------------------------------------------- searching

  method MiddleOf(first: nat, last: nat, size: nat, ghost lo: nat, ghost hi: nat) returns (middle: nat)
    requires size > 0 && lo <= hi && first == lo * size && last == hi * size && first < last
    ensures lo < hi && middle == (lo + (hi - lo) / 2) * size
  {
    RangeIs(lo, hi, size);
    var range := (last - first) / size;
    middle := first + range / 2 * size;
  }

  method CompareAt(key: Elem, a: array<byte>, middle: nat, size: nat, cmp: Cmp, ghost cnt: nat, ghost m: nat)
    returns (c: int)
    requires a.Length == cnt * size && m < cnt && middle == m * size
    ensures c == cmp(key, Elements(a[..], cnt, size)[m])
  {
    InArray(m, cnt, size);
    assert a[middle..middle + size] == a[..][middle..middle + size];
    c := cmp(key, a[middle..middle + size]);
  }

  /** Element `k` of `s` equals the key, and starts at byte `ofs`. */
  predicate IsMatch(cmp: Cmp, key: Elem, s: seq<Elem>, size: nat, k: nat, ofs: int)
    requires k < |s|
  {
    ofs == k * size && cmp(key, s[k]) == 0
  }

  /** Finds an element of a sorted array that equals the key exactly when there is one. Offsets are in bytes. */
  method BinarySearch(key: Elem, a: array<byte>, cnt: nat, size: nat, cmp: Cmp) returns (r: int)
    requires size > 0 && a.Length == cnt * size && |key| == size && TotalPreorder(cmp, size)
    requires SortedFrom(cmp, Elements(a[..], cnt, size), 0)
    ensures r >= 0 ==> exists k: nat :: k < cnt && IsMatch(cmp, key, Elements(a[..], cnt, size), size, k, r)
    ensures r < 0 ==> forall k :: 0 <= k < cnt ==> cmp(key, Elements(a[..], cnt, size)[k]) != 0
  {
    ghost var s := Elements(a[..], cnt, size);
    ghost var lo, hi := 0, cnt;
    var first, last := 0, cnt * size;
    while first < last
      invariant 0 <= lo <= hi <= cnt && first == lo * size && last == hi * size
      invariant forall k :: 0 <= k < lo ==> cmp(key, s[k]) > 0
      invariant forall k :: hi <= k < cnt ==> cmp(key, s[k]) < 0
      decreases hi - lo
    {
      ghost var m := lo + (hi - lo) / 2;
      var middle := MiddleOf(first, last, size, lo, hi);
      var c := CompareAt(key, a, middle, size, cmp, cnt, m);
      if c < 0 {
        AllAfter(cmp, key, size, s, m);
        last, hi := middle, m;
      } else if c > 0 {
        AllBefore(cmp, key, size, s, m);
        NextOffset(m, size);
        first, lo := middle + size, m + 1;
      } else {
        assert IsMatch(cmp, key, s, size, m, middle);
        return middle;
      }
    }
    NothingBetween(lo, hi, size);
    return -1;
  }

  lemma RangeIs(lo: nat, hi: nat, size: nat)
    requires size > 0 && lo <= hi && lo * size < hi * size
    ensures lo < hi && (hi * size - lo * size) / size == hi - lo
    ensures lo * size + (hi - lo) / 2 * size == (lo + (hi - lo) / 2) * size
  {
    DivExact(hi - lo, size);
    assert hi * size - lo * size == (hi - lo) * size;
  }

  lemma NextOffset(m: nat, size: nat)
    ensures m * size + size == (m + 1) * size
  {
  }

  lemma DivExact(n: nat, size: nat)
    requires size > 0
    ensures n * size / size == n
  {
    var q := n * size / size;
    if q < n {
      MulLe(q + 1, n, size);
    } else if q > n {
      MulLe(n + 1, q, size);
    }
  }

  lemma NothingBetween(lo: nat, hi: nat, size: nat)
    requires size > 0 && lo <= hi && lo * size >= hi * size
    ensures lo == hi
  {
    if lo < hi {
      MulLe(lo + 1, hi, size);
    }
  }

  /** If the key is below an element of a sorted array, it is below all that follow. */
  lemma AllAfter(cmp: Cmp, key: Elem, size: nat, s: seq<Elem>, m: nat)
    requires TotalPreorder(cmp, size) && Sized(s, size) && |key| == size && SortedFrom(cmp, s, 0)
    requires m < |s| && cmp(key, s[m]) < 0
    ensures forall k :: m <= k < |s| ==> cmp(key, s[k]) < 0
  {
    forall k | m < k < |s| ensures cmp(key, s[k]) < 0 {
      assert Mirrored(cmp, s[k], key) && Mirrored(cmp, key, s[m]) && Mirrored(cmp, s[m], key);
      assert Chained(cmp, s[m], s[k], key);
    }
  }

  lemma AllBefore(cmp: Cmp, key: Elem, size: nat, s: seq<Elem>, m: nat)
    requires TotalPreorder(cmp, size) && Sized(s, size) && |key| == size && SortedFrom(cmp, s, 0)
    requires m < |s| && cmp(key, s[m]) > 0
    ensures forall k :: 0 <= k <= m ==> cmp(key, s[k]) > 0
  {
    forall k | 0 <= k < m ensures cmp(key, s[k]) > 0 {
      assert Mirrored(cmp, key, s[k]) && Mirrored(cmp, key, s[m]);
      assert Chained(cmp, key, s[k], s[m]);
    }
  }
}
