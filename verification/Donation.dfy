/** Locks with priority donation. Acquiring a held lock walks the chain of locks that the holders themselves
    wait for. Threads and locks are named by their index in the kernel's tables. */
module Donation {
  import opened Common

  type Tid = nat
  type Lid = nat

  datatype Thread = Thread(priority: int, oldPriority: int, locks: seq<Lid>, waitingLock: Option<Lid>)
  datatype Lock = Lock(holder: Option<Tid>, maxPriority: int, value: nat, waiters: seq<Tid>)
  datatype State = State(threads: seq<Thread>, locks: seq<Lock>)

  const PRI_MIN := 0

  // ---------------------------------------------------------------- invariants

  /** A lock that thread `t` lists is a lock that `t` holds, and is listed once. */
  predicate ListsOwn(s: State, t: Tid)
    requires t < |s.threads|
  {
    && NoDup(s.threads[t].locks)
    && forall l :: l in s.threads[t].locks ==> l < |s.locks| && s.locks[l].holder == Some(t)
  }

  /** `l` is held by a thread that lists it. */
  predicate Held(s: State, l: Lid) {
    && l < |s.locks| && s.locks[l].holder.Some? && s.locks[l].holder.value < |s.threads|
    && l in s.threads[s.locks[l].holder.value].locks
  }

  /** Holders list their locks. */
  predicate Linked(s: State) {
    && (forall t :: 0 <= t < |s.threads| ==> ListsOwn(s, t))
    && (forall l :: 0 <= l < |s.locks| && s.locks[l].holder.Some? ==> Held(s, l))
  }

  /** `l` is held, or is spare: nobody holds it, though somebody woken may not have run yet and still wait for it. */
  predicate HeldOrSpare(s: State, l: Lid) {
    l < |s.locks| && (s.locks[l].holder == None || Held(s, l))
  }

  /** The pointers agree as far as they do between any two primitives. */
  predicate Loose(s: State) {
    && Linked(s)
    && forall t :: 0 <= t < |s.threads| && s.threads[t].waitingLock.Some? ==> HeldOrSpare(s, s.threads[t].waitingLock.value)
  }

  /** The pointers agree: holders list their locks and whoever waits for a lock waits for one that is held.
      `spare` is a lock that has been released but whose waiters have not run yet. */
  predicate Wired(s: State, spare: Option<Lid>) {
    && Linked(s)
    && (forall t :: 0 <= t < |s.threads| && s.threads[t].waitingLock.Some? ==>
          s.threads[t].waitingLock == spare || Held(s, s.threads[t].waitingLock.value))
  }

  /** No lock remembers a priority above its holder's. */
  predicate HoldersRaised(s: State) {
    forall l :: 0 <= l < |s.locks| && s.locks[l].holder.Some? && s.locks[l].holder.value < |s.threads| ==>
      s.locks[l].maxPriority <= s.threads[s.locks[l].holder.value].priority
  }

  /** The lock that `t` waits for, if any, remembers at least the priority of `t`. */
  predicate LockRaised(s: State, t: Tid)
    requires t < |s.threads|
  {
    s.threads[t].waitingLock.Some? && s.threads[t].waitingLock.value < |s.locks| ==>
      s.threads[t].priority <= s.locks[s.threads[t].waitingLock.value].maxPriority
  }

  predicate LocksRaised(s: State) {
    forall t :: 0 <= t < |s.threads| ==> LockRaised(s, t)
  }

  predicate Donated(s: State) { HoldersRaised(s) && LocksRaised(s) }

  /** Thread `t` waits for a lock that `u` holds. */
  predicate WaitsFor(s: State, t: Tid, u: Tid) {
    && t < |s.threads| && u < |s.threads| && s.threads[t].waitingLock.Some?
    && s.threads[t].waitingLock.value < |s.locks| && s.locks[s.threads[t].waitingLock.value].holder == Some(u)
  }

  /** What the invariant means: however long the chain of waiting, the thread at its end runs at no lower
      priority than any thread that waits, directly or not, for it. */
  lemma {:induction false} NoInversion(s: State, path: seq<Tid>)
    requires Donated(s) && |path| > 0 && path[0] < |s.threads|
    requires forall i :: 0 < i < |path| ==> WaitsFor(s, path[i - 1], path[i])
    ensures path[|path| - 1] < |s.threads|
    ensures s.threads[path[0]].priority <= s.threads[path[|path| - 1]].priority
  {
    if |path| > 1 {
      NoInversion(s, path[..|path| - 1]);
      assert WaitsFor(s, path[|path| - 2], path[|path| - 1]);
      assert LockRaised(s, path[|path| - 2]);
    }
  }

  // ---------------------------------------------------------------- the donation loop

  /** The greatest priority remembered by a list of locks. */
  function TopPriority(s: State, ls: seq<Lid>): (top: int)
    requires |ls| > 0 && forall l :: l in ls ==> l < |s.locks|
    ensures exists l :: l in ls && s.locks[l].maxPriority == top
    ensures forall l :: l in ls ==> s.locks[l].maxPriority <= top
  {
    var rest, last := ls[..|ls| - 1], ls[|ls| - 1];
    assert ls == rest + [last];
    assert last in ls && forall l :: l in ls <==> l in rest || l == last;
    if rest == [] then s.locks[last].maxPriority
    else Max(TopPriority(s, rest), s.locks[last].maxPriority)
  }

  /** One pass: lock `l` remembers `p`, and its holder gets the greatest priority its locks remember. */
  function RaiseOne(s: State, l: Lid, p: int): State
    requires Linked(s) && Held(s, l)
  {
    var s1 := s.(locks := s.locks[l := s.locks[l].(maxPriority := p)]);
    var h := s.locks[l].holder.value;
    assert ListsOwn(s, h);
    var top := TopPriority(s1, s.threads[h].locks);
    if top > s.threads[h].priority then s1.(threads := s.threads[h := s.threads[h].(priority := top)]) else s1
  }

  /** The lock that the holder of `l` waits for. */
  function NextLock(s: State, l: Lid): Option<Lid>
    requires Held(s, l)
  {
    s.threads[s.locks[l].holder.value].waitingLock
  }

  /** How many locks remember less than `p`. */
  function Below(ls: seq<Lock>, p: int): nat {
    if ls == [] then 0 else Below(ls[..|ls| - 1], p) + if ls[|ls| - 1].maxPriority < p then 1 else 0
  }

  lemma {:induction false} BelowRaised(ls: seq<Lock>, l: Lid, p: int)
    requires l < |ls| && ls[l].maxPriority < p
    ensures Below(ls[l := ls[l].(maxPriority := p)], p) < Below(ls, p)
  {
    var n, ls' := |ls| - 1, ls[l := ls[l].(maxPriority := p)];
    if l < n {
      BelowRaised(ls[..n], l, p);
      assert ls'[..n] == ls[..n][l := ls[l].(maxPriority := p)];
    } else {
      assert ls'[..n] == ls[..n];
    }
  }

  lemma RaiseOneKeepsLoose(s: State, l: Lid, p: int)
    requires Loose(s) && Held(s, l)
    ensures Loose(RaiseOne(s, l, p))
    ensures Wired(s, None) ==> Wired(RaiseOne(s, l, p), None)
  {
    var s' := RaiseOne(s, l, p);
    assert forall t :: 0 <= t < |s.threads| ==>
      s'.threads[t].locks == s.threads[t].locks && s'.threads[t].waitingLock == s.threads[t].waitingLock;
    assert forall k :: 0 <= k < |s.locks| ==> s'.locks[k].holder == s.locks[k].holder;
    assert forall k :: Held(s, k) ==> Held(s', k);
    forall t | 0 <= t < |s.threads| ensures ListsOwn(s', t) {
      assert ListsOwn(s, t);
    }
    forall t | 0 <= t < |s.threads| && s'.threads[t].waitingLock.Some? ensures HeldOrSpare(s', s'.threads[t].waitingLock.value) {
      assert HeldOrSpare(s, s.threads[t].waitingLock.value);
    }
  }

  /** The whole walk: raise lock after lock until one already remembers `p` or a holder does not wait. None if it comes
      to a lock that has no holder, whose null pointer it follows. */
  function Donate(s: State, wait: Option<Lid>, p: int): Option<State>
    requires Loose(s) && (wait.Some? ==> HeldOrSpare(s, wait.value))
    decreases Below(s.locks, p)
  {
    if wait == None || p <= s.locks[wait.value].maxPriority then Some(s)
    else if s.locks[wait.value].holder == None then None
    else
      RaiseOneKeepsLoose(s, wait.value, p);
      BelowRaised(s.locks, wait.value, p);
      NextIsHeldOrSpare(s, wait.value, p);
      Donate(RaiseOne(s, wait.value, p), NextLock(s, wait.value), p)
  }

  lemma NextIsHeldOrSpare(s: State, l: Lid, p: int)
    requires Loose(s) && Held(s, l)
    ensures NextLock(s, l).Some? ==>
      HeldOrSpare(s, NextLock(s, l).value) && HeldOrSpare(RaiseOne(s, l, p), NextLock(s, l).value)
  {
    var s' := RaiseOne(s, l, p);
    var h := s.locks[l].holder.value;
    assert s.threads[h].waitingLock.Some? ==> HeldOrSpare(s, s.threads[h].waitingLock.value);
    assert forall k :: Held(s, k) ==> Held(s', k);
  }

  // ---------------------------------------------------------------- where the walk fails

  /** The chain of locks from `path[0]`: each is held by a thread that waits for the next, all remember less than `p`,
      and the last is spare. */
  predicate LeadsToSpare(s: State, path: seq<Lid>, p: int) {
    && |path| > 0 && NoDup(path)
    && (forall i :: 0 <= i < |path| ==> path[i] < |s.locks| && s.locks[path[i]].maxPriority < p)
    && (forall i :: 0 <= i < |path| - 1 ==> Held(s, path[i]) && NextLock(s, path[i]) == Some(path[i + 1]))
    && s.locks[path[|path| - 1]].holder == None
  }

  ghost predicate ReachesSpare(s: State, l: Lid, p: int) {
    exists path :: LeadsToSpare(s, path, p) && path[0] == l
  }

  /** A pass raises one lock and changes no pointer, so the rest of the chain leads where it led. */
  lemma ChainAfterRaise(s: State, l: Lid, p: int, next: Lid)
    requires Loose(s) && Held(s, l) && s.locks[l].maxPriority < p && NextLock(s, l) == Some(next)
    ensures ReachesSpare(s, l, p) <==> ReachesSpare(RaiseOne(s, l, p), next, p)
  {
    var s' := RaiseOne(s, l, p);
    RaisedIsSameChain(s, l, p);
    if ReachesSpare(s, l, p) {
      RestReaches(s, s', l, p, next);
    }
    if ReachesSpare(s', next, p) {
      WholeReaches(s, s', l, p, next);
    }
  }

  lemma RaisedIsSameChain(s: State, l: Lid, p: int)
    requires Linked(s) && Held(s, l)
    ensures SameChain(s, RaiseOne(s, l, p), l) && RaiseOne(s, l, p).locks[l].maxPriority == p
  {
    var s' := RaiseOne(s, l, p);
    assert forall t :: 0 <= t < |s.threads| ==>
      s'.threads[t].locks == s.threads[t].locks && s'.threads[t].waitingLock == s.threads[t].waitingLock;
  }

  lemma RestReaches(s: State, s': State, l: Lid, p: int, next: Lid)
    requires ReachesSpare(s, l, p) && Held(s, l) && SameChain(s, s', l) && NextLock(s, l) == Some(next)
    ensures ReachesSpare(s', next, p)
  {
    var path :| LeadsToSpare(s, path, p) && path[0] == l;
    RestLeads(s, s', path, p, l);
    assert path[1..][0] == path[1] == next;
  }

  lemma WholeReaches(s: State, s': State, l: Lid, p: int, next: Lid)
    requires ReachesSpare(s', next, p) && Held(s, l) && SameChain(s, s', l) && NextLock(s, l) == Some(next)
    requires s.locks[l].maxPriority < p <= s'.locks[l].maxPriority
    ensures ReachesSpare(s, l, p)
  {
    var rest :| LeadsToSpare(s', rest, p) && rest[0] == next;
    WholeLeads(s, s', rest, p, l);
    assert ([l] + rest)[0] == l;
  }

  lemma RestLeads(s: State, s': State, path: seq<Lid>, p: int, l: Lid)
    requires LeadsToSpare(s, path, p) && path[0] == l && Held(s, l) && SameChain(s, s', l)
    ensures |path| > 1 && NextLock(s, l) == Some(path[1]) && LeadsToSpare(s', path[1..], p)
  {
    var rest := path[1..];
    forall i | 0 <= i < |rest| ensures rest[i] != l && rest[i] < |s'.locks| && s'.locks[rest[i]].maxPriority < p {
      assert rest[i] == path[i + 1];
    }
    forall i | 0 <= i < |rest| - 1 ensures Held(s', rest[i]) && NextLock(s', rest[i]) == Some(rest[i + 1]) {
      assert Held(s, path[i + 1]) && NextLock(s, path[i + 1]) == Some(path[i + 2]);
    }
  }

  lemma WholeLeads(s: State, s': State, rest: seq<Lid>, p: int, l: Lid)
    requires LeadsToSpare(s', rest, p) && Held(s, l) && SameChain(s, s', l) && NextLock(s, l) == Some(rest[0])
    requires s.locks[l].maxPriority < p <= s'.locks[l].maxPriority
    ensures LeadsToSpare(s, [l] + rest, p)
  {
    var path := [l] + rest;
    forall i | 0 <= i < |rest| ensures rest[i] != l {
      assert s'.locks[rest[i]].maxPriority < p;
    }
    forall i | 0 <= i < |path| - 1 ensures Held(s, path[i]) && NextLock(s, path[i]) == Some(path[i + 1]) {
      if i > 0 {
        assert path[i] == rest[i - 1] && path[i + 1] == rest[i];
        assert Held(s', rest[i - 1]) && NextLock(s', rest[i - 1]) == Some(rest[i]);
      }
    }
  }

  /** The same holders, waiting for the same locks, and the same memories but for that of `l`. */
  predicate SameChain(s: State, s': State, l: Lid) {
    && |s'.locks| == |s.locks|
    && (forall k :: 0 <= k < |s.locks| ==> s'.locks[k].holder == s.locks[k].holder)
    && (forall k :: 0 <= k < |s.locks| && k != l ==> s'.locks[k].maxPriority == s.locks[k].maxPriority)
    && (forall k :: 0 <= k < |s.locks| ==> Held(s, k) == Held(s', k))
    && forall k :: 0 <= k < |s.locks| && Held(s, k) && Held(s', k) ==> NextLock(s', k) == NextLock(s, k)
  }

  /** The walk is safe exactly when the chain does not reach a spare lock that remembers less than the donor before one
      that remembers as much. */
  lemma {:induction false} DonateFailsIff(s: State, wait: Option<Lid>, p: int)
    requires Loose(s) && (wait.Some? ==> HeldOrSpare(s, wait.value))
    ensures Donate(s, wait, p).None? <==> wait.Some? && ReachesSpare(s, wait.value, p)
    decreases Below(s.locks, p)
  {
    if wait.Some? {
      var l := wait.value;
      if p <= s.locks[l].maxPriority {
        assert forall path :: LeadsToSpare(s, path, p) ==> path[0] != l;
      } else if s.locks[l].holder == None {
        assert LeadsToSpare(s, [l], p);
      } else {
        RaiseOneKeepsLoose(s, l, p);
        BelowRaised(s.locks, l, p);
        NextIsHeldOrSpare(s, l, p);
        DonateFailsIff(RaiseOne(s, l, p), NextLock(s, l), p);
        if NextLock(s, l).Some? {
          ChainAfterRaise(s, l, p, NextLock(s, l).value);
        } else {
          NoChainWithoutNext(s, l, p);
        }
      }
    }
  }

  lemma NoChainWithoutNext(s: State, l: Lid, p: int)
    requires Held(s, l) && NextLock(s, l) == None
    ensures !ReachesSpare(s, l, p)
  {
    forall path | LeadsToSpare(s, path, p) ensures path[0] != l {
      ChainGoesOn(s, path, p);
    }
  }

  lemma ChainGoesOn(s: State, path: seq<Lid>, p: int)
    requires LeadsToSpare(s, path, p)
    ensures Held(s, path[0]) ==> NextLock(s, path[0]).Some?
  {
    if |path| > 1 {
      assert Held(s, path[0]) && NextLock(s, path[0]) == Some(path[1]);
    }
  }

  /** While every awaited lock is held it never fails. */
  lemma WiredNeverFails(s: State, l: Lid, p: int)
    requires Wired(s, None) && Held(s, l)
    ensures Loose(s) && HeldOrSpare(s, l) && Donate(s, Some(l), p).Some?
  {
    forall t | 0 <= t < |s.threads| && s.threads[t].waitingLock.Some? ensures HeldOrSpare(s, s.threads[t].waitingLock.value) {
      assert Held(s, s.threads[t].waitingLock.value);
    }
    DonateFailsIff(s, Some(l), p);
    forall path | LeadsToSpare(s, path, p) ensures path[0] != l {
      SpareIsAwaited(s, path, p);
    }
  }

  lemma SpareIsAwaited(s: State, path: seq<Lid>, p: int)
    requires LeadsToSpare(s, path, p)
    ensures var last := path[|path| - 1];
      !Held(s, last) && (|path| > 1 ==> exists t :: 0 <= t < |s.threads| && s.threads[t].waitingLock == Some(last))
  {
    var n := |path| - 1;
    if n > 0 {
      assert Held(s, path[n - 1]) && NextLock(s, path[n - 1]) == Some(path[n]);
      assert s.threads[s.locks[path[n - 1]].holder.value].waitingLock == Some(path[n]);
    }
  }

  // ---------------------------------------------------------------- what the walk achieves

  /** Every lock remembers at least its waiters' priorities, those of `last` aside. */
  predicate OthersRaised(s: State, last: Tid) {
    forall t :: 0 <= t < |s.threads| && t != last ==> LockRaised(s, t)
  }

  /** One pass gives the holder exactly the larger of its priority and `p`, and moves the only possible breach
      of the invariant from the waiter to the holder. */
  lemma RaiseOneEffect(s: State, l: Lid, p: int, last: Tid)
    requires Linked(s) && Held(s, l) && s.locks[l].maxPriority < p && HoldersRaised(s)
    requires last < |s.threads| && s.threads[last].waitingLock == Some(l) && s.threads[last].priority <= p
    requires OthersRaised(s, last)
    ensures var s', h := RaiseOne(s, l, p), s.locks[l].holder.value;
      && s'.locks == s.locks[l := s.locks[l].(maxPriority := p)]
      && s'.threads == s.threads[h := s.threads[h].(priority := Max(s.threads[h].priority, p))]
      && HoldersRaised(s') && OthersRaised(s', h)
  {
    var s', h := RaiseOne(s, l, p), s.locks[l].holder.value;
    var s1 := s.(locks := s.locks[l := s.locks[l].(maxPriority := p)]);
    assert ListsOwn(s, h);
    var top := TopPriority(s1, s.threads[h].locks);
    var k :| k in s.threads[h].locks && s1.locks[k].maxPriority == top;
    assert top == p || top <= s.threads[h].priority;
    assert top >= s1.locks[l].maxPriority;
    forall t | 0 <= t < |s.threads| && t != h ensures LockRaised(s', t) {
      assert t != last ==> LockRaised(s, t);
    }
  }

  /** The state in which thread `cur` waits for `lock`, before any donation. */
  function Waiting(s: State, cur: Tid, lock: Lid): State
    requires cur < |s.threads|
  {
    s.(threads := s.threads[cur := s.threads[cur].(waitingLock := Some(lock))])
  }

  /** A walk that does not fail repairs the invariant, whatever the shape of the chain: `last` waits for `wait` and may
      be the only thread whose lock does not remember it. */
  lemma {:induction false} DonateRepairs(s: State, wait: Option<Lid>, p: int, last: Tid)
    requires Loose(s) && HoldersRaised(s) && OthersRaised(s, last)
    requires last < |s.threads| && s.threads[last].waitingLock == wait && (wait.Some? ==> HeldOrSpare(s, wait.value))
    requires wait.Some? && s.locks[wait.value].maxPriority < s.threads[last].priority ==> s.threads[last].priority <= p
    ensures var r := Donate(s, wait, p);
      r.Some? ==> Loose(r.value) && Donated(r.value) && (Wired(s, None) ==> Wired(r.value, None))
    decreases Below(s.locks, p)
  {
    if wait == None || p <= s.locks[wait.value].maxPriority {
      assert LockRaised(s, last);
    } else if s.locks[wait.value].holder.Some? {
      var l := wait.value;
      var s', h := RaiseOne(s, l, p), s.locks[l].holder.value;
      RaiseOneEffect(s, l, p, last);
      RaiseOneKeepsLoose(s, l, p);
      BelowRaised(s.locks, l, p);
      NextIsHeldOrSpare(s, l, p);
      assert h != last ==> LockRaised(s, h);
      DonateRepairs(s', NextLock(s, l), p, h);
    }
  }

  /** `s'` has the same locks and threads as `s` and no priority of it, thread's or lock's, is lower. */
  predicate AtMost(s: State, s': State) {
    && |s.threads| == |s'.threads| && |s.locks| == |s'.locks|
    && (forall t :: 0 <= t < |s.threads| ==>
          s.threads[t].priority <= s'.threads[t].priority && s.threads[t].waitingLock == s'.threads[t].waitingLock)
    && (forall l :: 0 <= l < |s.locks| ==>
          s.locks[l].maxPriority <= s'.locks[l].maxPriority && s.locks[l].holder == s'.locks[l].holder)
  }

  /** The walk raises nothing it does not have to: any state above `s` that satisfies the invariant is above
      the state the walk reaches. */
  lemma {:induction false} DonateIsLeast(s: State, wait: Option<Lid>, p: int, last: Tid, better: State)
    requires Loose(s) && HoldersRaised(s) && OthersRaised(s, last)
    requires last < |s.threads| && s.threads[last].waitingLock == wait && (wait.Some? ==> HeldOrSpare(s, wait.value))
    requires wait.Some? && s.locks[wait.value].maxPriority < s.threads[last].priority ==> s.threads[last].priority <= p
    requires AtMost(s, better) && Donated(better) && p <= better.threads[last].priority
    ensures Donate(s, wait, p).Some? ==> AtMost(Donate(s, wait, p).value, better)
    decreases Below(s.locks, p)
  {
    if wait != None && s.locks[wait.value].maxPriority < p && s.locks[wait.value].holder.Some? {
      var l := wait.value;
      var h := s.locks[l].holder.value;
      RaiseOneKeepsLoose(s, l, p);
      BelowRaised(s.locks, l, p);
      NextIsHeldOrSpare(s, l, p);
      RaiseOneIsLeast(s, l, p, last, better);
      assert h != last ==> LockRaised(s, h);
      DonateIsLeast(RaiseOne(s, l, p), NextLock(s, l), p, h, better);
    }
  }

  /** One pass stays below whatever satisfies the invariant. */
  lemma RaiseOneIsLeast(s: State, l: Lid, p: int, last: Tid, better: State)
    requires Linked(s) && Held(s, l) && s.locks[l].maxPriority < p && HoldersRaised(s) && OthersRaised(s, last)
    requires last < |s.threads| && s.threads[last].waitingLock == Some(l) && s.threads[last].priority <= p
    requires AtMost(s, better) && Donated(better) && p <= better.threads[last].priority
    ensures var s', h := RaiseOne(s, l, p), s.locks[l].holder.value;
      && s'.locks == s.locks[l := s.locks[l].(maxPriority := p)]
      && s'.threads == s.threads[h := s.threads[h].(priority := Max(s.threads[h].priority, p))]
      && HoldersRaised(s') && OthersRaised(s', h) && AtMost(s', better) && p <= better.threads[h].priority
  {
    RaiseOneEffect(s, l, p, last);
    assert LockRaised(better, last);
  }

  /** Waiting for a held lock and donating along the chain either follows a null pointer, just when the chain leads to a
      spare lock that remembers too little, or restores the whole invariant, for chains of any depth and even if they
      form a cycle, and raises priorities as little as that allows. */
  lemma WaitAndDonate(s: State, cur: Tid, lock: Lid)
    requires Loose(s) && Donated(s) && Held(s, lock)
    requires cur < |s.threads| && s.threads[cur].waitingLock == None
    ensures var w, p := Waiting(s, cur, lock), s.threads[cur].priority;
      && Loose(w) && HeldOrSpare(w, lock)
      && var r := Donate(w, Some(lock), p);
      && (r.None? <==> ReachesSpare(w, lock, p))
      && (r.Some? ==> Loose(r.value) && Donated(r.value))
      && (r.Some? ==> forall better :: AtMost(w, better) && Donated(better) ==> AtMost(r.value, better))
  {
    var w, p := Waiting(s, cur, lock), s.threads[cur].priority;
    WaitingKeepsLoose(s, cur, lock);
    DonateRepairs(w, Some(lock), p, cur);
    DonateFailsIff(w, Some(lock), p);
    forall better | AtMost(w, better) && Donated(better) && Donate(w, Some(lock), p).Some?
      ensures AtMost(Donate(w, Some(lock), p).value, better)
    {
      DonateIsLeast(w, Some(lock), p, cur, better);
    }
  }

  /** In particular it succeeds whenever every awaited lock is held. */
  lemma WaitAndDonateWired(s: State, cur: Tid, lock: Lid)
    requires Wired(s, None) && Donated(s) && Held(s, lock)
    requires cur < |s.threads| && s.threads[cur].waitingLock == None
    ensures var w := Waiting(s, cur, lock);
      && Wired(w, None) && Held(w, lock) && Loose(w) && HeldOrSpare(w, lock)
      && var r := Donate(w, Some(lock), s.threads[cur].priority);
      r.Some? && Wired(r.value, None) && Donated(r.value)
  {
    var w, p := Waiting(s, cur, lock), s.threads[cur].priority;
    WaitingKeepsWired(s, cur, lock);
    WiredNeverFails(w, lock, p);
    DonateRepairs(w, Some(lock), p, cur);
  }

  lemma WaitingKeepsLoose(s: State, cur: Tid, lock: Lid)
    requires Loose(s) && Donated(s) && Held(s, lock)
    requires cur < |s.threads| && s.threads[cur].waitingLock == None
    ensures var w := Waiting(s, cur, lock);
      Loose(w) && HoldersRaised(w) && OthersRaised(w, cur) && Held(w, lock) && HeldOrSpare(w, lock)
  {
    var w := Waiting(s, cur, lock);
    forall t | 0 <= t < |s.threads| ensures ListsOwn(w, t) && (t != cur ==> LockRaised(w, t)) {
      assert ListsOwn(s, t) && LockRaised(s, t);
    }
    assert forall k :: Held(s, k) ==> Held(w, k);
    forall t | 0 <= t < |w.threads| && w.threads[t].waitingLock.Some? ensures HeldOrSpare(w, w.threads[t].waitingLock.value) {
      assert t != cur ==> HeldOrSpare(s, s.threads[t].waitingLock.value);
    }
  }

  lemma WaitingKeepsWired(s: State, cur: Tid, lock: Lid)
    requires Wired(s, None) && Donated(s) && Held(s, lock)
    requires cur < |s.threads| && s.threads[cur].waitingLock == None
    ensures var w := Waiting(s, cur, lock); Wired(w, None) && HoldersRaised(w) && OthersRaised(w, cur) && Held(w, lock)
  {
    var w := Waiting(s, cur, lock);
    forall t | 0 <= t < |s.threads| ensures ListsOwn(w, t) && (t != cur ==> LockRaised(w, t)) {
      assert ListsOwn(s, t) && LockRaised(s, t);
    }
    assert forall k :: Held(s, k) ==> Held(w, k);
    forall t | 0 <= t < |w.threads| && w.threads[t].waitingLock.Some? ensures Held(w, w.threads[t].waitingLock.value) {
      assert t != cur ==> Held(s, s.threads[t].waitingLock.value);
    }
  }

  // ---------------------------------------------------------------- taking and releasing

  /** The free lock passes to `cur`, whose donation so far the lock keeps remembering. */
  function Take(s: State, cur: Tid, lock: Lid): State
    requires cur < |s.threads| && lock < |s.locks| && s.locks[lock].value > 0
  {
    var t, l := s.threads[cur], s.locks[lock];
    State(s.threads[cur := t.(waitingLock := None, locks := t.locks + [lock])],
          s.locks[lock := l.(holder := Some(cur), maxPriority := Max(t.priority, l.maxPriority), value := l.value - 1)])
  }

  function Remove(xs: seq<nat>, x: nat): (r: seq<nat>)
    ensures forall y :: y in r <==> y in xs && y != x
    ensures NoDup(xs) ==> NoDup(r)
  {
    if xs == [] then []
    else
      var rest, last := xs[..|xs| - 1], xs[|xs| - 1];
      assert xs == rest + [last];
      assert forall i :: 0 <= i < |rest| ==> xs[i] == rest[i];
      assert NoDup(xs) ==> NoDup(rest) && last !in rest;
      if last == x then Remove(rest, x) else Remove(rest, x) + [last]
  }

  /** What a thread's priority falls back to: its own, or the most that the locks it keeps remember. If it keeps none,
      the maximum of the empty list is its tail, and the word taken for a priority is the pointer to it from the list's
      head: a kernel address, negative as an int, and so below any priority. */
  function Fallback(s: State, t: Thread, kept: seq<Lid>): int
    requires forall l :: l in kept ==> l < |s.locks|
  {
    if kept == [] then t.oldPriority else Max(t.oldPriority, TopPriority(s, kept))
  }

  /** The holder gives the lock up; a holder that lists no lock keeps its priority. `woken`, if anyone, leaves the list of waiters. */
  function Release(s: State, cur: Tid, lock: Lid, woken: Option<Tid>): State
    requires cur < |s.threads| && lock < |s.locks| && ListsOwn(s, cur)
  {
    var t, l := s.threads[cur], s.locks[lock];
    var kept := Remove(t.locks, lock);
    State(if t.locks == [] then s.threads else s.threads[cur := t.(locks := kept, priority := Fallback(s, t, kept))],
          s.locks[lock := l.(holder := None, value := l.value + 1,
                             waiters := if woken.Some? then Remove(l.waiters, woken.value) else l.waiters)])
  }

  lemma ReleaseKeepsPointers(s: State, cur: Tid, lock: Lid, woken: Option<Tid>)
    requires Loose(s) && Held(s, lock) && s.locks[lock].holder == Some(cur) && s.threads[cur].waitingLock == None
    ensures var s' := Release(s, cur, lock, woken);
      && Loose(s') && !Held(s', lock) && (forall k :: k != lock && Held(s, k) ==> Held(s', k))
      && forall t :: 0 <= t < |s.threads| ==> s'.threads[t].waitingLock == s.threads[t].waitingLock
  {
    var s' := Release(s, cur, lock, woken);
    assert ListsOwn(s, cur);
    assert forall k :: k != lock && Held(s, k) ==> Held(s', k);
    forall t | 0 <= t < |s.threads| ensures ListsOwn(s', t) {
      assert ListsOwn(s, t);
    }
    forall t | 0 <= t < |s'.threads| && s'.threads[t].waitingLock.Some? ensures HeldOrSpare(s', s'.threads[t].waitingLock.value) {
      assert HeldOrSpare(s, s.threads[t].waitingLock.value);
    }
  }

  /** `p` is no less than the own priority of thread `t` nor than what any lock that `t` holds remembers. */
  ghost predicate Covers(s: State, t: Tid, p: int)
    requires t < |s.threads|
  {
    && s.threads[t].oldPriority <= p
    && forall l :: 0 <= l < |s.locks| && s.locks[l].holder == Some(t) ==> s.locks[l].maxPriority <= p
  }

  /** The priority of thread `t` is the least that covers its own and its locks. */
  ghost predicate LeastCovering(s: State, t: Tid)
    requires t < |s.threads|
  {
    Covers(s, t, s.threads[t].priority) && forall p :: Covers(s, t, p) ==> s.threads[t].priority <= p
  }

  /** A release gives up just what has been donated through the lock: the thread falls back to the least priority that
      covers its own and the locks it keeps. */
  lemma ReleaseFallsBack(s: State, cur: Tid, lock: Lid, woken: Option<Tid>)
    requires Linked(s) && Held(s, lock) && s.locks[lock].holder == Some(cur)
    ensures var s' := Release(s, cur, lock, woken);
      |s'.threads| == |s.threads| && LeastCovering(s', cur) && s'.threads[cur].oldPriority == s.threads[cur].oldPriority
  {
    assert ListsOwn(s, cur);
    var s', t := Release(s, cur, lock, woken), s.threads[cur];
    var kept := Remove(t.locks, lock);
    ReleaseChanges(s, cur, lock, woken);
    FallbackCovers(s, t, kept);
    forall l | 0 <= l < |s'.locks| && s'.locks[l].holder == Some(cur)
      ensures l in kept && s'.locks[l].maxPriority == s.locks[l].maxPriority
    {
      assert Held(s, l);
    }
    forall p | Covers(s', cur, p) ensures s'.threads[cur].priority <= p {
      forall l | l in kept ensures s.locks[l].maxPriority <= p {
        assert s'.locks[l].holder == Some(cur);
      }
      FallbackIsLeast(s, t, kept, p);
    }
  }

  lemma FallbackCovers(s: State, t: Thread, kept: seq<Lid>)
    requires forall l :: l in kept ==> l < |s.locks|
    ensures t.oldPriority <= Fallback(s, t, kept) && forall l :: l in kept ==> s.locks[l].maxPriority <= Fallback(s, t, kept)
  {
  }

  lemma FallbackIsLeast(s: State, t: Thread, kept: seq<Lid>, p: int)
    requires forall l :: l in kept ==> l < |s.locks| && s.locks[l].maxPriority <= p
    requires t.oldPriority <= p
    ensures Fallback(s, t, kept) <= p
  {
  }

  /** The other locks stay its own, and no other thread or lock changes. */
  lemma ReleaseChanges(s: State, cur: Tid, lock: Lid, woken: Option<Tid>)
    requires Linked(s) && Held(s, lock) && s.locks[lock].holder == Some(cur)
    ensures var s' := Release(s, cur, lock, woken);
      && |s'.threads| == |s.threads| && |s'.locks| == |s.locks|
      && s'.locks[lock].holder == None && s'.locks[lock].value == s.locks[lock].value + 1
      && s'.locks[lock].maxPriority == s.locks[lock].maxPriority
      && (forall l :: l in s'.threads[cur].locks <==> l in s.threads[cur].locks && l != lock)
      && s'.threads[cur].waitingLock == s.threads[cur].waitingLock
      && (forall t :: 0 <= t < |s.threads| && t != cur ==> s'.threads[t] == s.threads[t])
      && (forall l :: 0 <= l < |s.locks| && l != lock ==> s'.locks[l] == s.locks[l])
  {
  }

  lemma {:induction false} RemoveIs(a: seq<nat>, x: nat, b: seq<nat>)
    requires x !in a && x !in b
    ensures Remove(a + [x] + b, x) == a + b
  {
    var xs := a + [x] + b;
    if b == [] {
      assert xs[..|xs| - 1] == a;
      RemoveAbsent(a, x);
    } else {
      var last := b[|b| - 1];
      assert last in b && xs[..|xs| - 1] == a + [x] + b[..|b| - 1];
      RemoveIs(a, x, b[..|b| - 1]);
      assert a + b == a + b[..|b| - 1] + [last];
    }
  }

  lemma {:induction false} RemoveAbsent(xs: seq<nat>, x: nat)
    requires x !in xs
    ensures Remove(xs, x) == xs
  {
    if xs != [] {
      var rest, last := xs[..|xs| - 1], xs[|xs| - 1];
      assert xs == rest + [last];
      RemoveAbsent(rest, x);
    }
  }

  /** Releasing keeps the bound for the locks still held. The pointers agree again at once unless someone waits. */
  lemma ReleaseKeepsDonation(s: State, cur: Tid, lock: Lid, woken: Option<Tid>)
    requires Loose(s) && Donated(s) && Held(s, lock) && s.locks[lock].holder == Some(cur)
    requires s.threads[cur].waitingLock == None
    ensures var s' := Release(s, cur, lock, woken);
      && Loose(s') && Donated(s')
      && (Wired(s, None) ==>
            Wired(s', Some(lock)) &&
            (Wired(s', None) <==> forall t :: 0 <= t < |s.threads| ==> s.threads[t].waitingLock != Some(lock)))
  {
    var s' := Release(s, cur, lock, woken);
    ReleaseKeepsPointers(s, cur, lock, woken);
    forall t | 0 <= t < |s.threads| ensures LockRaised(s', t) {
      assert LockRaised(s, t) && ListsOwn(s, t);
    }
    forall l | 0 <= l < |s'.locks| && s'.locks[l].holder.Some?
      ensures s'.locks[l].maxPriority <= s'.threads[s'.locks[l].holder.value].priority
    {
      assert Held(s, l) && l != lock;
    }
  }

  /** Passing a free lock on keeps the whole invariant exactly when the lock does not remember more than its
      new holder's priority: `lock_release` never lowers what a lock remembers. */
  lemma TakeKeepsDonationIff(s: State, cur: Tid, lock: Lid)
    requires Loose(s) && Donated(s)
    requires cur < |s.threads| && lock < |s.locks| && s.locks[lock].holder == None && s.locks[lock].value > 0
    requires s.threads[cur].waitingLock == None || s.threads[cur].waitingLock == Some(lock)
    ensures var s' := Take(s, cur, lock);
      && Loose(s') && LocksRaised(s') && (Wired(s, Some(lock)) ==> Wired(s', None))
      && (Donated(s') <==> s.locks[lock].maxPriority <= s.threads[cur].priority)
  {
    var s' := Take(s, cur, lock);
    assert ListsOwn(s, cur);
    assert s'.threads[cur].locks[|s.threads[cur].locks|] == lock;
    assert forall k :: Held(s, k) ==> Held(s', k);
    assert Held(s', lock);
    forall t | 0 <= t < |s.threads| ensures ListsOwn(s', t) && LockRaised(s', t) {
      assert ListsOwn(s, t) && LockRaised(s, t);
    }
    forall t | 0 <= t < |s'.threads| && s'.threads[t].waitingLock.Some? ensures HeldOrSpare(s', s'.threads[t].waitingLock.value) {
      assert HeldOrSpare(s, s.threads[t].waitingLock.value);
    }
    assert s'.locks[lock].maxPriority <= s'.threads[cur].priority <==>
      s.locks[lock].maxPriority <= s.threads[cur].priority;
  }

  /** In particular the first hold of a lock: it then remembers the least priority there is. */
  lemma FirstHoldKeepsDonation(s: State, cur: Tid, lock: Lid)
    requires Loose(s) && Donated(s)
    requires cur < |s.threads| && lock < |s.locks| && s.locks[lock] == Lock(None, PRI_MIN, 1, [])
    requires s.threads[cur].waitingLock == None && s.threads[cur].priority >= PRI_MIN
    ensures Loose(Take(s, cur, lock)) && Donated(Take(s, cur, lock))
  {
    TakeKeepsDonationIff(s, cur, lock);
  }

  /** Setting one's own priority, which only lowers the effective priority of a thread that holds no lock. */
  function SetPriority(s: State, cur: Tid, p: int): State
    requires cur < |s.threads|
  {
    var t := s.threads[cur];
    s.(threads := s.threads[cur := t.(oldPriority := p,
                                      priority := if t.locks == [] || p > t.priority then p else t.priority)])
  }

  lemma SetPriorityKeepsDonation(s: State, cur: Tid, p: int)
    requires Loose(s) && Donated(s) && cur < |s.threads| && s.threads[cur].waitingLock == None
    ensures Loose(SetPriority(s, cur, p)) && Donated(SetPriority(s, cur, p))
  {
    var s' := SetPriority(s, cur, p);
    assert forall k :: Held(s, k) ==> Held(s', k);
    forall t | 0 <= t < |s.threads| ensures ListsOwn(s', t) && LockRaised(s', t) {
      assert ListsOwn(s, t) && LockRaised(s, t);
    }
    forall t | 0 <= t < |s'.threads| && s'.threads[t].waitingLock.Some? ensures HeldOrSpare(s', s'.threads[t].waitingLock.value) {
      assert HeldOrSpare(s, s.threads[t].waitingLock.value);
    }
    forall l | 0 <= l < |s.locks| && s.locks[l].holder == Some(cur)
      ensures s.locks[l].maxPriority <= s'.threads[cur].priority
    {
      assert Held(s, l);
    }
  }

  /** Setting it keeps the priority least just when the thread holds no lock, asks for no less than it has, or runs at
      what one of its locks remembers: a thread that lowers itself below what it got when it was not donated keeps it. */
  lemma SetPriorityLeastIff(s: State, cur: Tid, p: int)
    requires Linked(s) && HoldersRaised(s) && cur < |s.threads|
    ensures var s' := SetPriority(s, cur, p);
      && Covers(s', cur, s'.threads[cur].priority) && s'.threads[cur].oldPriority == p
      && (LeastCovering(s', cur) <==>
            s.threads[cur].locks == [] || p >= s.threads[cur].priority ||
            exists l :: l in s.threads[cur].locks && l < |s.locks| && s.locks[l].maxPriority == s.threads[cur].priority)
  {
    var s', t := SetPriority(s, cur, p), s.threads[cur];
    assert ListsOwn(s, cur);
    forall l | 0 <= l < |s.locks| && s.locks[l].holder == Some(cur) ensures l in t.locks && s.locks[l].maxPriority <= t.priority {
      assert Held(s, l);
    }
    if t.locks != [] && p < t.priority && forall l :: l in t.locks ==> s.locks[l].maxPriority != t.priority {
      assert Covers(s', cur, t.priority - 1);
    }
  }

  // ---------------------------------------------------------------- runs

  /** A lock's semaphore is up exactly while nobody holds the lock, and its waiters wait for it. */
  predicate Queues(s: State, l: Lid)
    requires l < |s.locks|
  {
    && s.locks[l].value == (if s.locks[l].holder == None then 1 else 0)
    && NoDup(s.locks[l].waiters)
    && forall t :: t in s.locks[l].waiters ==> t < |s.threads| && s.threads[t].waitingLock == Some(l)
  }

  predicate Sound(s: State) {
    Loose(s) && forall l :: 0 <= l < |s.locks| ==> Queues(s, l)
  }

  /** What a thread does with the locks. A thread that `Resume`s is one that was woken from the queue of a lock. */
  datatype Event = Acquire(t: Tid, l: Lid) | Resume(t: Tid, l: Lid) | Free(t: Tid, l: Lid, woken: Option<Tid>)
                 | SetOwn(t: Tid, p: int)

  /** The thread is awake: it waits for nothing, or has been woken and not run since. */
  predicate MayDo(s: State, e: Event) {
    && e.t < |s.threads| && (!e.SetOwn? ==> e.l < |s.locks|)
    && match e
       case Acquire(t, l) => s.threads[t].waitingLock == None && s.locks[l].holder != Some(t)
       case Resume(t, l) => s.threads[t].waitingLock == Some(l) && t !in s.locks[l].waiters
       case Free(t, l, woken) => s.threads[t].waitingLock == None && s.locks[l].holder == Some(t)
       case SetOwn(t, p) => s.threads[t].waitingLock == None
  }

  /** The event passes a free lock to its thread. */
  predicate Takes(s: State, e: Event) {
    (e.Acquire? || e.Resume?) && e.l < |s.locks| && s.locks[e.l].holder == None
  }

  ghost predicate Next(s: State, e: Event, s': State) {
    && MayDo(s, e)
    && if Takes(s, e) then s.locks[e.l].value > 0 && s' == Take(s, e.t, e.l)
       else
         match e
         case Acquire(t, l) => Blocked(s, t, l, s')
         case Resume(t, l) => s' == Queued(s, t, l)
         case Free(t, l, woken) =>
           && ListsOwn(s, t) && (woken.None? <==> s.locks[l].waiters == [])
           && (woken.Some? ==> woken.value in s.locks[l].waiters)
           && s' == Release(s, t, l, woken)
         case SetOwn(t, p) => s' == SetPriority(s, t, p)
  }

  /** A free lock that is taken remembers no more than its taker's priority. */
  predicate Fits(s: State, e: Event) {
    Takes(s, e) && e.t < |s.threads| ==> s.locks[e.l].maxPriority <= s.threads[e.t].priority
  }

  /** Every event keeps the pointers sound, and keeps the invariant of donation exactly unless it passes a lock to a
      thread below what the lock remembers. */
  lemma StepKeepsDonationIff(s: State, e: Event, s': State)
    requires Sound(s) && Donated(s) && Next(s, e, s')
    ensures Sound(s') && (Donated(s') <==> Fits(s, e))
  {
    if Takes(s, e) {
      assert Queues(s, e.l);
      TakeKeepsDonationIff(s, e.t, e.l);
      TakeKeepsQueues(s, e.t, e.l);
    } else {
      match e
      case Acquire(t, l) =>
        assert Held(s, l);
        BlockKeepsDonation(s, t, l, s');
      case Resume(t, l) =>
        QueuedKeepsSound(s, t, l);
      case Free(t, l, woken) =>
        assert Held(s, l);
        ReleaseKeepsDonation(s, t, l, woken);
        ReleaseKeepsQueues(s, t, l, woken);
      case SetOwn(t, p) =>
        SetPriorityKeepsDonation(s, t, p);
        forall l | 0 <= l < |s.locks| ensures Queues(s', l) {
          assert Queues(s, l);
        }
    }
  }

  lemma TakeKeepsQueues(s: State, cur: Tid, lock: Lid)
    requires Sound(s) && cur < |s.threads| && lock < |s.locks| && s.locks[lock].holder == None && s.locks[lock].value > 0
    requires s.threads[cur].waitingLock == None || s.threads[cur].waitingLock == Some(lock)
    requires cur !in s.locks[lock].waiters
    ensures forall l :: 0 <= l < |s.locks| ==> Queues(Take(s, cur, lock), l)
  {
    forall l | 0 <= l < |s.locks| ensures Queues(Take(s, cur, lock), l) {
      assert Queues(s, l) && Queues(s, lock);
    }
  }

  lemma ReleaseKeepsQueues(s: State, cur: Tid, lock: Lid, woken: Option<Tid>)
    requires Sound(s) && Held(s, lock) && s.locks[lock].holder == Some(cur) && ListsOwn(s, cur)
    ensures forall l :: 0 <= l < |s.locks| ==> Queues(Release(s, cur, lock, woken), l)
  {
    forall l | 0 <= l < |s.locks| ensures Queues(Release(s, cur, lock, woken), l) {
      assert Queues(s, l);
    }
  }

  lemma QueuedKeepsSound(s: State, cur: Tid, lock: Lid)
    requires Loose(s) && lock < |s.locks| && cur < |s.threads| && s.threads[cur].waitingLock == Some(lock)
    requires cur !in s.locks[lock].waiters && forall l :: 0 <= l < |s.locks| ==> Queues(s, l)
    ensures Sound(Queued(s, cur, lock)) && (Donated(Queued(s, cur, lock)) <==> Donated(s))
  {
    var s' := Queued(s, cur, lock);
    assert forall k :: Held(s, k) ==> Held(s', k);
    forall t | 0 <= t < |s.threads| ensures ListsOwn(s', t) && (LockRaised(s', t) <==> LockRaised(s, t)) {
      assert ListsOwn(s, t);
    }
    forall t | 0 <= t < |s'.threads| && s'.threads[t].waitingLock.Some? ensures HeldOrSpare(s', s'.threads[t].waitingLock.value) {
      assert HeldOrSpare(s, s.threads[t].waitingLock.value);
    }
    forall l | 0 <= l < |s.locks| ensures Queues(s', l) {
      assert Queues(s, l);
    }
    HoldersTheSame(s, s');
  }

  lemma HoldersTheSame(s: State, s': State)
    requires s'.threads == s.threads && |s'.locks| == |s.locks|
    requires forall l :: 0 <= l < |s.locks| ==> s'.locks[l].holder == s.locks[l].holder
    requires forall l :: 0 <= l < |s.locks| ==> s'.locks[l].maxPriority == s.locks[l].maxPriority
    ensures HoldersRaised(s') <==> HoldersRaised(s)
  {
  }

  lemma BlockKeepsDonation(s: State, cur: Tid, lock: Lid, s': State)
    requires Sound(s) && Donated(s) && Held(s, lock) && cur < |s.threads| && s.threads[cur].waitingLock == None
    requires Blocked(s, cur, lock, s')
    ensures Sound(s') && Donated(s')
  {
    var w, p := Waiting(s, cur, lock), s.threads[cur].priority;
    WaitAndDonate(s, cur, lock);
    DonateKeepsPointers(w, Some(lock), p);
    var d := Donate(w, Some(lock), p).value;
    forall l | 0 <= l < |d.locks| ensures Queues(d, l) && cur !in d.locks[l].waiters {
      assert Queues(s, l);
    }
    QueuedKeepsSound(d, cur, lock);
  }

  /** The queues keep their order: whoever has to wait goes to the end of its lock's queue, whoever is woken leaves it
      from between the others, and the other queues stay as they are. */
  lemma QueueKeepsOrder(s: State, e: Event, s': State, l: Lid, before: seq<Tid>, after: seq<Tid>)
    requires Sound(s) && Donated(s) && Next(s, e, s') && l < |s.locks|
    requires e.Free? && e.l == l && e.woken.Some? ==> s.locks[l].waiters == before + [e.woken.value] + after
    ensures |s'.locks| == |s.locks|
    ensures s'.locks[l].waiters ==
      if e.SetOwn? || e.l != l then s.locks[l].waiters
      else if e.Free? then if e.woken.Some? then before + after else []
      else if s.locks[l].holder.Some? then s.locks[l].waiters + [e.t] else s.locks[l].waiters
  {
    assert Queues(s, l);
    match e
    case Acquire(t, k) =>
      if s.locks[k].holder.Some? {
        assert Held(s, k);
        WaitAndDonate(s, t, k);
        DonateKeepsPointers(Waiting(s, t, k), Some(k), s.threads[t].priority);
      }
    case Resume(t, k) =>
    case Free(t, k, woken) =>
      if k == l && woken.Some? {
        SplitApart(before, woken.value, after);
        RemoveIs(before, woken.value, after);
      }
    case SetOwn(t, p) =>
  }

  lemma SplitApart(a: seq<nat>, x: nat, b: seq<nat>)
    requires NoDup(a + [x] + b)
    ensures x !in a && x !in b
  {
    var xs := a + [x] + b;
    assert xs[|a|] == x;
    assert forall i :: 0 <= i < |a| ==> xs[i] == a[i];
    assert forall i :: 0 <= i < |b| ==> xs[|a| + 1 + i] == b[i];
  }

  ghost predicate IsRun(run: seq<State>, events: seq<Event>) {
    |run| == |events| + 1 && forall i :: 0 <= i < |events| ==> Next(run[i], events[i], run[i + 1])
  }

  /** In any run from a state that satisfies it, the invariant holds throughout if and only if every lock that is taken
      remembers no more than its taker's priority. */
  lemma {:induction false} DonatedInAnyRunIff(run: seq<State>, events: seq<Event>)
    requires IsRun(run, events) && Sound(run[0]) && Donated(run[0])
    ensures (forall i :: 0 <= i < |run| ==> Sound(run[i]) && Donated(run[i])) <==>
            (forall i :: 0 <= i < |events| ==> Fits(run[i], events[i]))
  {
    var n := |events|;
    if n > 0 {
      var run0, events0 := run[..n], events[..n - 1];
      assert forall i :: 0 <= i < n ==> run0[i] == run[i];
      assert forall i :: 0 <= i < n - 1 ==> events0[i] == events[i];
      DonatedInAnyRunIff(run0, events0);
      assert run0[n - 1] == run[n - 1];
      if Sound(run[n - 1]) && Donated(run[n - 1]) {
        StepKeepsDonationIff(run[n - 1], events[n - 1], run[n]);
      }
    }
  }

  /** A thread that asks for a held lock gets to its queue unless the chain leads to a spare lock that remembers too
      little, when it follows a null pointer instead. */
  lemma AcquireFaultsIff(s: State, t: Tid, l: Lid)
    requires Sound(s) && Donated(s) && MayDo(s, Acquire(t, l)) && s.locks[l].holder.Some?
    ensures (exists s' :: Next(s, Acquire(t, l), s')) <==> !ReachesSpare(Waiting(s, t, l), l, s.threads[t].priority)
  {
    assert Held(s, l);
    WaitAndDonate(s, t, l);
    var w, p := Waiting(s, t, l), s.threads[t].priority;
    DonateKeepsPointers(w, Some(l), p);
    if Donate(w, Some(l), p).Some? {
      assert Next(s, Acquire(t, l), Queued(Donate(w, Some(l), p).value, t, l));
    }
  }

  const FREE := Lock(None, PRI_MIN, 1, [])

  function Idle(p: int): Thread { Thread(p, p, [], None) }

  /** With three threads and two locks: thread 1 takes lock 1, thread 0 takes lock 0 and waits for lock 1, and thread 1
      gives lock 1 up, which wakes thread 0. */
  function FaultRun(): seq<State> {
    [State([Idle(10), Idle(10), Idle(20)], [FREE, FREE]),
     State([Idle(10), Thread(10, 10, [1], None), Idle(20)], [FREE, Lock(Some(1), 10, 0, [])]),
     State([Thread(10, 10, [0], None), Thread(10, 10, [1], None), Idle(20)], [Lock(Some(0), 10, 0, []), Lock(Some(1), 10, 0, [])]),
     State([Thread(10, 10, [0], Some(1)), Thread(10, 10, [1], None), Idle(20)], [Lock(Some(0), 10, 0, []), Lock(Some(1), 10, 0, [0])]),
     State([Thread(10, 10, [0], Some(1)), Idle(10), Idle(20)], [Lock(Some(0), 10, 0, []), Lock(None, 10, 1, [])])]
  }

  const FAULT_EVENTS := [Acquire(1, 1), Acquire(0, 0), Acquire(0, 1), Free(1, 1, Some(0))]

  lemma FaultRunTakes()
    ensures Next(FaultRun()[0], FAULT_EVENTS[0], FaultRun()[1]) && Next(FaultRun()[1], FAULT_EVENTS[1], FaultRun()[2])
  {
    var run := FaultRun();
    assert [] + [0] == [0] && [] + [1] == [1];
    assert Take(run[0], 1, 1).threads == run[1].threads && Take(run[0], 1, 1).locks == run[1].locks;
    assert Take(run[1], 0, 0).threads == run[2].threads && Take(run[1], 0, 0).locks == run[2].locks;
  }

  lemma FaultRunWaits()
    requires Sound(FaultRun()[2]) && Donated(FaultRun()[2])
    ensures Next(FaultRun()[2], FAULT_EVENTS[2], FaultRun()[3])
  {
    var s := FaultRun()[2];
    assert Held(s, 1);
    WaitingKeepsLoose(s, 0, 1);
    FaultRunQueues();
    assert Donate(Waiting(s, 0, 1), Some(1), 10) == Some(Waiting(s, 0, 1));
  }

  lemma FaultRunQueues()
    ensures Queued(Waiting(FaultRun()[2], 0, 1), 0, 1) == FaultRun()[3]
  {
    var run := FaultRun();
    var q := Queued(Waiting(run[2], 0, 1), 0, 1);
    assert [] + [0] == [0];
    assert q.threads == run[3].threads && q.locks == run[3].locks;
  }

  lemma FaultRunFrees()
    ensures Next(FaultRun()[3], FAULT_EVENTS[3], FaultRun()[4])
  {
    var run := FaultRun();
    assert Remove([1], 1) == [] && Remove([0], 0) == [];
    var s' := Release(run[3], 1, 1, Some(0));
    assert s'.threads == run[4].threads && s'.locks == run[4].locks;
  }

  lemma FaultRunStartsSound()
    ensures Sound(FaultRun()[0]) && Donated(FaultRun()[0])
  {
    var s := FaultRun()[0];
    assert forall t :: 0 <= t < 3 ==> ListsOwn(s, t) && LockRaised(s, t);
    assert forall l :: 0 <= l < 2 ==> Queues(s, l);
  }

  lemma FaultRunEndsAtSpare()
    ensures ReachesSpare(Waiting(FaultRun()[4], 2, 0), 0, 20)
  {
    var w := Waiting(FaultRun()[4], 2, 0);
    assert Held(w, 0) && NextLock(w, 0) == Some(1);
    assert LeadsToSpare(w, [0, 1], 20);
  }

  /** Before thread 0 runs again thread 2, of a higher priority than lock 1 remembers, asks for lock 0: the walk comes to
      lock 1, which nobody holds. The invariant holds all along. */
  lemma WalkMayFault()
    ensures IsRun(FaultRun(), FAULT_EVENTS)
    ensures forall i :: 0 <= i < |FaultRun()| ==> Sound(FaultRun()[i]) && Donated(FaultRun()[i])
    ensures MayDo(FaultRun()[4], Acquire(2, 0)) && !exists s' :: Next(FaultRun()[4], Acquire(2, 0), s')
  {
    var run := FaultRun();
    FaultRunStartsSound();
    FaultRunTakes();
    StepKeepsDonationIff(run[0], FAULT_EVENTS[0], run[1]);
    StepKeepsDonationIff(run[1], FAULT_EVENTS[1], run[2]);
    FaultRunWaits();
    FaultRunFrees();
    DonatedInAnyRunIff(run, FAULT_EVENTS);
    FaultRunEndsAtSpare();
    AcquireFaultsIff(run[4], 2, 0);
  }

  /** With two threads and a lock: thread 0 takes it, thread 1 waits for it and donates, thread 0 gives it up, thread 1
      takes it and gives it up in turn, and thread 0 takes it again. */
  function ForgottenRun(): seq<State> {
    [State([Idle(10), Idle(50)], [FREE]),
     State([Thread(10, 10, [0], None), Idle(50)], [Lock(Some(0), 10, 0, [])]),
     State([Thread(50, 10, [0], None), Thread(50, 50, [], Some(0))], [Lock(Some(0), 50, 0, [1])]),
     State([Idle(10), Thread(50, 50, [], Some(0))], [Lock(None, 50, 1, [])]),
     State([Idle(10), Thread(50, 50, [0], None)], [Lock(Some(1), 50, 0, [])]),
     State([Idle(10), Idle(50)], [Lock(None, 50, 1, [])]),
     State([Thread(10, 10, [0], None), Idle(50)], [Lock(Some(0), 50, 0, [])])]
  }

  const FORGOTTEN_EVENTS :=
    [Acquire(0, 0), Acquire(1, 0), Free(0, 0, Some(1)), Resume(1, 0), Free(1, 0, None), Acquire(0, 0)]

  lemma ForgottenRunTakes()
    ensures Next(ForgottenRun()[0], FORGOTTEN_EVENTS[0], ForgottenRun()[1])
    ensures Next(ForgottenRun()[3], FORGOTTEN_EVENTS[3], ForgottenRun()[4])
    ensures Next(ForgottenRun()[5], FORGOTTEN_EVENTS[5], ForgottenRun()[6])
  {
    var run := ForgottenRun();
    assert [] + [0] == [0];
    assert Take(run[0], 0, 0).threads == run[1].threads && Take(run[0], 0, 0).locks == run[1].locks;
    assert Take(run[3], 1, 0).threads == run[4].threads && Take(run[3], 1, 0).locks == run[4].locks;
    assert Take(run[5], 0, 0).threads == run[6].threads && Take(run[5], 0, 0).locks == run[6].locks;
  }

  lemma ForgottenRunFrees()
    ensures Next(ForgottenRun()[2], FORGOTTEN_EVENTS[2], ForgottenRun()[3])
    ensures Next(ForgottenRun()[4], FORGOTTEN_EVENTS[4], ForgottenRun()[5])
  {
    var run := ForgottenRun();
    assert Remove([0], 0) == [] && Remove([1], 1) == [];
    var s, s' := Release(run[2], 0, 0, Some(1)), Release(run[4], 1, 0, None);
    assert s.threads == run[3].threads && s.locks == run[3].locks;
    assert s'.threads == run[5].threads && s'.locks == run[5].locks;
  }

  lemma ForgottenRunWaits()
    requires Sound(ForgottenRun()[1]) && Donated(ForgottenRun()[1])
    ensures Next(ForgottenRun()[1], FORGOTTEN_EVENTS[1], ForgottenRun()[2])
  {
    var s := ForgottenRun()[1];
    assert Held(s, 0);
    WaitingKeepsLoose(s, 1, 0);
    ForgottenRunRaises();
    var w := Waiting(s, 1, 0);
    RaiseOneKeepsLoose(w, 0, 50);
    assert Donate(w, Some(0), 50) == Some(RaiseOne(w, 0, 50));
  }

  lemma ForgottenRunRaises()
    requires Held(Waiting(ForgottenRun()[1], 1, 0), 0) && Linked(Waiting(ForgottenRun()[1], 1, 0))
    ensures NextLock(Waiting(ForgottenRun()[1], 1, 0), 0) == None
    ensures Queued(RaiseOne(Waiting(ForgottenRun()[1], 1, 0), 0, 50), 1, 0) == ForgottenRun()[2]
  {
    var w := Waiting(ForgottenRun()[1], 1, 0);
    var s1 := w.(locks := w.locks[0 := w.locks[0].(maxPriority := 50)]);
    assert [0][..0] == [] && TopPriority(s1, [0]) == 50;
    var q := Queued(RaiseOne(w, 0, 50), 1, 0);
    assert [] + [1] == [1];
    assert q.threads == ForgottenRun()[2].threads && q.locks == ForgottenRun()[2].locks;
  }

  lemma ForgottenRunStartsSound()
    ensures Sound(ForgottenRun()[0]) && Donated(ForgottenRun()[0])
  {
    var s := ForgottenRun()[0];
    assert forall t :: 0 <= t < 2 ==> ListsOwn(s, t) && LockRaised(s, t);
    assert forall l :: 0 <= l < 1 ==> Queues(s, l);
  }

  lemma ForgottenRunFits(i: nat)
    requires i < 5
    ensures Fits(ForgottenRun()[i], FORGOTTEN_EVENTS[i])
  {
  }

  lemma ForgottenRunGoes(i: nat)
    requires i < 6 && (i == 1 ==> Sound(ForgottenRun()[1]) && Donated(ForgottenRun()[1]))
    ensures Next(ForgottenRun()[i], FORGOTTEN_EVENTS[i], ForgottenRun()[i + 1])
  {
    if i == 1 {
      ForgottenRunWaits();
    } else if i == 2 || i == 4 {
      ForgottenRunFrees();
    } else {
      ForgottenRunTakes();
    }
  }

  lemma {:induction false} ForgottenRunSoFar(i: nat)
    requires i < 6
    ensures Sound(ForgottenRun()[i]) && Donated(ForgottenRun()[i]) && Next(ForgottenRun()[i], FORGOTTEN_EVENTS[i], ForgottenRun()[i + 1])
  {
    if i == 0 {
      ForgottenRunStartsSound();
    } else {
      ForgottenRunSoFar(i - 1);
      ForgottenRunFits(i - 1);
      StepKeepsDonationIff(ForgottenRun()[i - 1], FORGOTTEN_EVENTS[i - 1], ForgottenRun()[i]);
    }
    ForgottenRunGoes(i);
  }

  /** The lock still remembers the donation then, so it is above its holder: this take does not keep the invariant. */
  lemma DonationMayBreak()
    ensures IsRun(ForgottenRun(), FORGOTTEN_EVENTS)
    ensures forall i :: 0 <= i < 6 ==> Sound(ForgottenRun()[i]) && Donated(ForgottenRun()[i])
    ensures !Fits(ForgottenRun()[5], FORGOTTEN_EVENTS[5]) && !Donated(ForgottenRun()[6])
  {
    forall i | 0 <= i < 6
      ensures Sound(ForgottenRun()[i]) && Donated(ForgottenRun()[i]) && Next(ForgottenRun()[i], FORGOTTEN_EVENTS[i], ForgottenRun()[i + 1])
    {
      ForgottenRunSoFar(i);
    }
    StepKeepsDonationIff(ForgottenRun()[5], FORGOTTEN_EVENTS[5], ForgottenRun()[6]);
  }

  /** A thread of priority 10 takes a lock, raises itself to 50 and asks for 20. */
  function RaisedRun(): seq<State> {
    [State([Idle(10)], [FREE]),
     State([Thread(10, 10, [0], None)], [Lock(Some(0), 10, 0, [])]),
     State([Thread(50, 50, [0], None)], [Lock(Some(0), 10, 0, [])]),
     State([Thread(50, 20, [0], None)], [Lock(Some(0), 10, 0, [])])]
  }

  const RAISED_EVENTS := [Acquire(0, 0), SetOwn(0, 50), SetOwn(0, 20)]

  /** It goes on at 50, though nobody has donated anything. */
  lemma RaisedStaysRaised()
    ensures Sound(RaisedRun()[0]) && Donated(RaisedRun()[0]) && IsRun(RaisedRun(), RAISED_EVENTS)
    ensures LeastCovering(RaisedRun()[2], 0) && !LeastCovering(RaisedRun()[3], 0)
  {
    var run := RaisedRun();
    assert ListsOwn(run[0], 0) && LockRaised(run[0], 0) && Queues(run[0], 0);
    assert [] + [0] == [0];
    assert Take(run[0], 0, 0).threads == run[1].threads && Take(run[0], 0, 0).locks == run[1].locks;
    assert Covers(run[3], 0, 20);
  }

  // ---------------------------------------------------------------- the primitives

  /** What each lock of a list remembers. */
  function LockKeys(locks: seq<Lock>, ls: seq<Lid>): (keys: seq<int>)
    requires forall l :: l in ls ==> l < |locks|
    ensures |keys| == |ls| && forall i :: 0 <= i < |ls| ==> ls[i] in ls && keys[i] == locks[ls[i]].maxPriority
  {
    seq(|ls|, i requires 0 <= i < |ls| => (assert ls[i] in ls; locks[ls[i]].maxPriority))
  }

  /** The priority of each thread of a list. */
  function ThreadKeys(threads: seq<Thread>, ts: seq<Tid>): (keys: seq<int>)
    requires forall t :: t in ts ==> t < |threads|
    ensures |keys| == |ts| && forall i :: 0 <= i < |ts| ==> ts[i] in ts && keys[i] == threads[ts[i]].priority
  {
    seq(|ts|, i requires 0 <= i < |ts| => (assert ts[i] in ts; threads[ts[i]].priority))
  }

  /** `list_max`: the position of the first element with the greatest key. */
  method ListMax(keys: seq<int>) returns (max: nat)
    requires |keys| > 0
    ensures max < |keys|
    ensures forall i :: 0 <= i < |keys| ==> keys[i] <= keys[max]
    ensures forall i :: 0 <= i < max ==> keys[i] < keys[max]
  {
    max := 0;
    for e := 1 to |keys|
      invariant max < e
      invariant forall i :: 0 <= i < e ==> keys[i] <= keys[max]
      invariant forall i :: 0 <= i < max ==> keys[i] < keys[max]
    {
      if keys[max] < keys[e] {
        max := e;
      }
    }
  }

  /** The kernel's tables, changed in place with interrupts off. */
  class Kernel {
    var threads: seq<Thread>
    var locks: seq<Lock>

    ghost function Abstract(): State
      reads this
    {
      State(threads, locks)
    }

    /** The greatest priority that a list of locks remembers. */
    method Top(ls: seq<Lid>) returns (top: int)
      requires |ls| > 0 && forall l :: l in ls ==> l < |locks|
      ensures top == TopPriority(Abstract(), ls)
    {
      var m := ListMax(LockKeys(locks, ls));
      top := locks[ls[m]].maxPriority;
    }

    /** One pass of the loop of `lock_acquire`. */
    method Raise(l: Lid, p: int)
      requires Linked(Abstract()) && Held(Abstract(), l)
      modifies this
      ensures Abstract() == RaiseOne(old(Abstract()), l, p)
    {
      locks := locks[l := locks[l].(maxPriority := p)];
      var h := locks[l].holder.value;
      assert ListsOwn(old(Abstract()), h);
      var top := Top(threads[h].locks);
      if top > threads[h].priority {
        threads := threads[h := threads[h].(priority := top)];
      }
    }

    /** The loop of `lock_acquire`, and whether it got through without following a null pointer. */
    method Walk(cur: Tid, lock: Lid) returns (ok: bool)
      requires cur < |threads| && Loose(Abstract()) && HeldOrSpare(Abstract(), lock)
      requires HoldersRaised(Abstract()) && OthersRaised(Abstract(), cur) && threads[cur].waitingLock == Some(lock)
      modifies this
      ensures ok <==> Donate(old(Abstract()), Some(lock), old(threads[cur].priority)).Some?
      ensures ok ==> Donate(old(Abstract()), Some(lock), old(threads[cur].priority)) == Some(Abstract())
    {
      var wait: Option<Lid> := Some(lock);
      ghost var last, p := cur, threads[cur].priority;
      while wait != None && threads[cur].priority > locks[wait.value].maxPriority
        invariant cur < |threads| && threads[cur].priority == p && Loose(Abstract())
        invariant wait.Some? ==> HeldOrSpare(Abstract(), wait.value)
        invariant Walking(Abstract(), wait, last, p)
        invariant Donate(Abstract(), wait, p) == Donate(old(Abstract()), Some(lock), p)
        decreases Below(locks, p)
      {
        if locks[wait.value].holder == None {
          return false;
        }
        ghost var s := Abstract();
        WalkingOn(s, wait.value, last, p);
        last := locks[wait.value].holder.value;
        BelowRaised(locks, wait.value, p);
        Raise(wait.value, threads[cur].priority);
        wait := threads[locks[wait.value].holder.value].waitingLock;
      }
      ok := true;
    }

    /** The end of `lock_acquire`, with the semaphore up. */
    method TakeFree(cur: Tid, lock: Lid)
      requires cur < |threads| && lock < |locks| && locks[lock].value > 0
      modifies this
      ensures Abstract() == Take(old(Abstract()), cur, lock)
    {
      var l, t := locks[lock], threads[cur];
      l := l.(value := l.value - 1);
      l := l.(holder := Some(cur));
      t := t.(waitingLock := None);
      t := t.(locks := t.locks + [lock]);
      l := l.(maxPriority := if t.priority > l.maxPriority then t.priority else l.maxPriority);
      locks, threads := locks[lock := l], threads[cur := t];
    }

    /** `lock_acquire` up to the point where the thread has the lock or sleeps; not `ok` if it follows a null pointer. */
    method LockAcquire(cur: Tid, lock: Lid) returns (blocked: bool, ok: bool)
      requires cur < |threads| && lock < |locks| && locks[lock].holder != Some(cur)
      requires locks[lock].value == if locks[lock].holder == None then 1 else 0
      requires locks[lock].holder.Some? ==>
        Loose(Abstract()) && Donated(Abstract()) && threads[cur].waitingLock == None
      modifies this
      ensures blocked <==> old(locks[lock].holder).Some?
      ensures !blocked ==> ok && Abstract() == Take(old(Abstract()), cur, lock)
      ensures blocked ==> (!ok <==> ReachesSpare(Waiting(old(Abstract()), cur, lock), lock, old(threads[cur].priority)))
      ensures blocked && ok ==> Blocked(old(Abstract()), cur, lock, Abstract())
      ensures blocked && Wired(old(Abstract()), None) ==> ok
    {
      blocked, ok := locks[lock].holder.Some?, true;
      if blocked {
        if Wired(Abstract(), None) {
          WaitAndDonateWired(Abstract(), cur, lock);
        }
        WaitingKeepsLoose(Abstract(), cur, lock);
        threads := threads[cur := threads[cur].(waitingLock := Some(lock))];
        DonateFailsIff(Abstract(), Some(lock), threads[cur].priority);
        DonateKeepsPointers(Abstract(), Some(lock), threads[cur].priority);
        ok := Walk(cur, lock);
        if ok {
          locks := locks[lock := locks[lock].(waiters := locks[lock].waiters + [cur])];
        }
      } else {
        TakeFree(cur, lock);
      }
    }

    /** The priority part of `lock_release`. */
    method GiveUp(cur: Tid, lock: Lid)
      requires cur < |threads| && ListsOwn(Abstract(), cur) && threads[cur].locks != []
      modifies this`threads
      ensures threads == var t, kept := old(threads[cur]), Remove(old(threads[cur].locks), lock);
        old(threads)[cur := t.(locks := kept, priority := Fallback(old(Abstract()), t, kept))]
    {
      var t := threads[cur];
      var kept := Remove(t.locks, lock);
      var priority := t.oldPriority;
      if kept != [] {
        var top := Top(kept);
        priority := if top > priority then top else priority;
      }
      threads := threads[cur := t.(locks := kept, priority := priority)];
    }

    /** `sema_up` on a lock's semaphore: wakes the first waiter of the greatest priority, if anyone waits. */
    method SemaUp(lock: Lid) returns (woken: Option<Tid>)
      requires lock < |locks| && forall t :: t in locks[lock].waiters ==> t < |threads|
      modifies this`locks
      ensures var l := old(locks[lock]);
        locks == old(locks)[lock := l.(value := l.value + 1,
          waiters := if woken.Some? then Remove(l.waiters, woken.value) else l.waiters)]
      ensures woken.None? <==> old(locks[lock].waiters) == []
      ensures woken.Some? ==> IsFirstUrgent(threads, old(locks[lock].waiters), woken.value)
    {
      var waiters;
      woken, waiters := TakeUrgent(locks[lock].waiters);
      locks := locks[lock := locks[lock].(value := locks[lock].value + 1, waiters := waiters)];
    }

    /** Takes the first waiter of the greatest priority off the list, if there is any. */
    method TakeUrgent(ts: seq<Tid>) returns (woken: Option<Tid>, rest: seq<Tid>)
      requires forall t :: t in ts ==> t < |threads|
      ensures rest == if woken.Some? then Remove(ts, woken.value) else ts
      ensures woken.None? <==> ts == []
      ensures woken.Some? ==> IsFirstUrgent(threads, ts, woken.value)
    {
      woken, rest := None, ts;
      if ts != [] {
        var m := ListMax(ThreadKeys(threads, ts));
        FirstUrgentAt(threads, ts, m);
        woken, rest := Some(ts[m]), Remove(ts, ts[m]);
      }
    }

    /** `lock_release`. */
    method LockRelease(cur: Tid, lock: Lid) returns (woken: Option<Tid>)
      requires cur < |threads| && lock < |locks| && locks[lock].holder == Some(cur) && ListsOwn(Abstract(), cur)
      requires forall t :: t in locks[lock].waiters ==> t < |threads|
      modifies this
      ensures Abstract() == Release(old(Abstract()), cur, lock, woken)
      ensures woken.None? <==> old(locks[lock].waiters) == []
      ensures woken.Some? ==> IsFirstUrgent(threads, old(locks[lock].waiters), woken.value)
    {
      if threads[cur].locks != [] {
        GiveUp(cur, lock);
      }
      ghost var given := threads;
      locks := locks[lock := locks[lock].(holder := None)];
      woken := SemaUp(lock);
      ReleaseIs(old(Abstract()), cur, lock, woken, given, Abstract());
    }
  }

  /** The parts of `Release`. */
  lemma ReleaseIs(s: State, cur: Tid, lock: Lid, woken: Option<Tid>, given: seq<Thread>, s': State)
    requires cur < |s.threads| && lock < |s.locks| && ListsOwn(s, cur)
    requires var t, kept := s.threads[cur], Remove(s.threads[cur].locks, lock);
      given == if t.locks == [] then s.threads else s.threads[cur := t.(locks := kept, priority := Fallback(s, t, kept))]
    requires s'.threads == given
    requires var l := s.locks[lock];
      s'.locks == s.locks[lock := l.(holder := None, value := l.value + 1,
                                     waiters := if woken.Some? then Remove(l.waiters, woken.value) else l.waiters)]
    ensures s' == Release(s, cur, lock, woken)
  {
  }

  /** `t` is the first among `ts` of the greatest priority. */
  predicate IsFirstUrgent(threads: seq<Thread>, ts: seq<Tid>, t: Tid)
    requires forall u :: u in ts ==> u < |threads|
  {
    var keys := ThreadKeys(threads, ts);
    exists m :: 0 <= m < |ts| && ts[m] == t &&
      (forall i :: 0 <= i < |ts| ==> keys[i] <= keys[m]) && (forall i :: 0 <= i < m ==> keys[i] < keys[m])
  }

  /** Nobody in the list has a higher priority, and everybody before it a lower one. */
  lemma FirstUrgentIs(threads: seq<Thread>, ts: seq<Tid>, t: Tid, i: nat)
    requires (forall u :: u in ts ==> u < |threads|) && IsFirstUrgent(threads, ts, t) && i < |ts|
    ensures t in ts && ts[i] in ts && threads[ts[i]].priority <= threads[t].priority
    ensures exists m :: 0 <= m < |ts| && ts[m] == t && (i < m ==> threads[ts[i]].priority < threads[t].priority)
  {
    var keys := ThreadKeys(threads, ts);
    var m :| 0 <= m < |ts| && ts[m] == t &&
      (forall i :: 0 <= i < |ts| ==> keys[i] <= keys[m]) && (forall i :: 0 <= i < m ==> keys[i] < keys[m]);
    assert keys[i] <= keys[m] && (i < m ==> keys[i] < keys[m]);
  }

  lemma FirstUrgentAt(threads: seq<Thread>, ts: seq<Tid>, m: nat)
    requires (forall u :: u in ts ==> u < |threads|) && m < |ts|
    requires forall i :: 0 <= i < |ts| ==> ThreadKeys(threads, ts)[i] <= ThreadKeys(threads, ts)[m]
    requires forall i :: 0 <= i < m ==> ThreadKeys(threads, ts)[i] < ThreadKeys(threads, ts)[m]
    ensures IsFirstUrgent(threads, ts, ts[m])
  {
  }

  /** `cur` has queued up for `lock` and donated along the chain. */
  ghost predicate Blocked(s: State, cur: Tid, lock: Lid, s': State) {
    && cur < |s.threads|
    && var w := Waiting(s, cur, lock);
    && Loose(w) && HeldOrSpare(w, lock)
    && var d := Donate(w, Some(lock), s.threads[cur].priority);
    && d.Some? && lock < |d.value.locks| && s' == Queued(d.value, cur, lock)
  }

  function Queued(s: State, cur: Tid, lock: Lid): State
    requires lock < |s.locks|
  {
    s.(locks := s.locks[lock := s.locks[lock].(waiters := s.locks[lock].waiters + [cur])])
  }

  /** What the loop of `lock_acquire` knows: only `last`, whose lock is next, may still be above its lock. */
  ghost predicate Walking(s: State, wait: Option<Lid>, last: Tid, p: int) {
    && HoldersRaised(s) && OthersRaised(s, last)
    && last < |s.threads| && s.threads[last].waitingLock == wait
    && (wait.Some? && wait.value < |s.locks| && s.locks[wait.value].maxPriority < s.threads[last].priority ==>
          s.threads[last].priority <= p)
  }

  lemma WalkingOn(s: State, l: Lid, last: Tid, p: int)
    requires Loose(s) && Held(s, l) && s.locks[l].maxPriority < p && Walking(s, Some(l), last, p)
    ensures var s', h := RaiseOne(s, l, p), s.locks[l].holder.value;
      && Loose(s') && Walking(s', NextLock(s, l), h, p)
      && (NextLock(s, l).Some? ==> HeldOrSpare(s', NextLock(s, l).value))
      && |s'.threads| == |s.threads| && s'.locks == s.locks[l := s.locks[l].(maxPriority := p)]
      && Donate(s, Some(l), p) == Donate(s', NextLock(s, l), p)
      && forall t :: 0 <= t < |s.threads| && s.threads[t].priority >= p ==>
           s'.threads[t].priority == s.threads[t].priority
  {
    RaiseOneEffect(s, l, p, last);
    RaiseOneKeepsLoose(s, l, p);
    BelowRaised(s.locks, l, p);
    NextIsHeldOrSpare(s, l, p);
    var h := s.locks[l].holder.value;
    assert h != last ==> LockRaised(s, h);
  }

  /** `s'` differs from `s` in priorities at most. */
  predicate SamePointers(s: State, s': State) {
    && |s'.threads| == |s.threads| && |s'.locks| == |s.locks|
    && (forall t :: 0 <= t < |s.threads| ==> s'.threads[t].waitingLock == s.threads[t].waitingLock)
    && (forall l :: 0 <= l < |s.locks| ==> s'.locks[l].(maxPriority := 0) == s.locks[l].(maxPriority := 0))
  }

  lemma RaiseOneKeepsPointers(s: State, l: Lid, p: int)
    requires Linked(s) && Held(s, l)
    ensures SamePointers(s, RaiseOne(s, l, p))
  {
  }

  /** Donation changes nothing but priorities. */
  lemma {:induction false} DonateKeepsPointers(s: State, wait: Option<Lid>, p: int)
    requires Loose(s) && (wait.Some? ==> HeldOrSpare(s, wait.value))
    ensures Donate(s, wait, p).Some? ==> SamePointers(s, Donate(s, wait, p).value)
    decreases Below(s.locks, p)
  {
    if wait != None && s.locks[wait.value].maxPriority < p && s.locks[wait.value].holder.Some? {
      var s' := RaiseOne(s, wait.value, p);
      RaiseOneKeepsLoose(s, wait.value, p);
      BelowRaised(s.locks, wait.value, p);
      NextIsHeldOrSpare(s, wait.value, p);
      RaiseOneKeepsPointers(s, wait.value, p);
      DonateKeepsPointers(s', NextLock(s, wait.value), p);
    }
  }
}
