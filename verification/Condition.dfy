/** Condition variables built from semaphores: a waiter queues a semaphore of its own, gives the lock up, downs the
    semaphore and takes the lock again. Each primitive is one step; any thread may run between two of them. */
module Condition {
  import opened Common

  type Tid = nat

  /** Where a thread is. `Queued`: in `cond_wait`, still with the lock. `Released`: without it, before `sema_down`.
      `Asleep`: in its semaphore's list of waiters. `Woken`: unblocked, about to test the semaphore again.
      `Relocking`: past `sema_down`. */
  datatype Pc = Outside | Inside | Queued | Released | Asleep | Woken | Relocking

  /** `waiters` is the condition's list; each element stands for the semaphore of the thread that queued it, whose
      value is in `value`. `signals` and `ended` count the signals that found a waiter and the waits that ended. */
  datatype State = State(
    lock: Option<Tid>, waiters: seq<Tid>, pc: seq<Pc>, value: seq<nat>, priority: seq<int>, signals: nat, ended: nat)

  // ---------------------------------------------------------------- steps

  datatype Act = Enter | Leave | Queue | Unlock | Down | Relock | Signal(k: nat)

  /** `cond_cmp` looks at the thread at the front of each semaphore's list; `list_front` panics on an empty one. So with
      two waiters or more, every one of them must be asleep. */
  predicate Comparable(s: State) {
    |s.waiters| <= 1 || forall i :: 0 <= i < |s.waiters| ==> IsAsleep(s, s.waiters[i])
  }

  predicate IsAsleep(s: State, t: Tid) {
    t < |s.pc| && s.pc[t] == Asleep
  }

  /** Element `k` of the list is the first of the highest priority. */
  predicate IsFirstHighest(priority: seq<int>, list: seq<Tid>, k: nat) {
    && k < |list| && (forall i :: 0 <= i < |list| ==> list[i] < |priority|)
    && (forall i :: 0 <= i < |list| ==> priority[list[i]] <= priority[list[k]])
    && forall i :: 0 <= i < k ==> priority[list[i]] < priority[list[k]]
  }

  predicate Enabled(s: State, t: Tid, a: Act) {
    && t < |s.pc| == |s.value|
    && match a
       case Enter => s.pc[t] == Outside && s.lock == None
       case Leave => s.pc[t] == Inside
       case Queue => s.pc[t] == Inside
       case Unlock => s.pc[t] == Queued
       case Down => s.pc[t] == Released || s.pc[t] == Woken
       case Relock => s.pc[t] == Relocking && s.lock == None
       case Signal(k) =>
         s.pc[t] == Inside && Comparable(s) &&
         (s.waiters != [] ==> IsFirstHighest(s.priority, s.waiters, k) && s.waiters[k] < |s.pc|)
  }

  /** The waiter at `k` leaves the list and its semaphore goes up. */
  function Signalled(s: State, k: nat): State
    requires k < |s.waiters| && s.waiters[k] < |s.pc| == |s.value|
  {
    var w := s.waiters[k];
    s.(waiters := Without(s.waiters, k), value := s.value[w := s.value[w] + 1],
       pc := if s.pc[w] == Asleep then s.pc[w := Woken] else s.pc, signals := s.signals + 1)
  }

  function Step(s: State, t: Tid, a: Act): State
    requires Enabled(s, t, a)
  {
    match a
    case Enter => s.(lock := Some(t), pc := s.pc[t := Inside])
    case Leave => s.(lock := None, pc := s.pc[t := Outside])
    case Queue => s.(waiters := s.waiters + [t], value := s.value[t := 0], pc := s.pc[t := Queued])
    case Unlock => s.(lock := None, pc := s.pc[t := Released])
    case Down =>
      if s.value[t] == 0 then s.(pc := s.pc[t := Asleep])
      else s.(value := s.value[t := s.value[t] - 1], pc := s.pc[t := Relocking])
    case Relock => s.(lock := Some(t), pc := s.pc[t := Inside], ended := s.ended + 1)
    case Signal(k) => if s.waiters == [] then s else Signalled(s, k)
  }

  // ---------------------------------------------------------------- the invariant

  predicate HoldsLock(p: Pc) { p == Inside || p == Queued }

  ghost predicate Exclusion(s: State) {
    && (s.lock.Some? ==> s.lock.value < |s.pc| && HoldsLock(s.pc[s.lock.value]))
    && forall t :: 0 <= t < |s.pc| && HoldsLock(s.pc[t]) ==> s.lock == Some(t)
  }

  /** A thread's semaphore, seen with its place: 0 while it is on the list, 1 from the signal to the end of its wait. */
  predicate SemaOk(p: Pc, onList: bool, value: nat) {
    if onList then (p == Queued || p == Released || p == Asleep) && value == 0
    else p != Queued && p != Asleep && (p == Released || p == Woken ==> value == 1) && (p == Relocking ==> value == 0)
  }

  ghost predicate SemasOk(s: State) {
    && |s.value| == |s.pc| == |s.priority| && NoDup(s.waiters)
    && (forall t :: t in s.waiters ==> t < |s.pc|)
    && forall t :: 0 <= t < |s.pc| ==> SemaOk(s.pc[t], t in s.waiters, s.value[t])
  }

  // ---------------------------------------------------------------- what it implements

  /** A Mesa monitor's condition: some threads wait, some have been woken and want the lock again. */
  datatype Mesa = Mesa(lock: Option<Tid>, waiting: set<Tid>, woken: set<Tid>)

  /** Enter or leave. */
  ghost predicate LockMoves(a: Mesa, b: Mesa) {
    b == a.(lock := b.lock) && (a.lock == None || b.lock == None)
  }

  /** The lock's holder gives it up and waits, at once. */
  ghost predicate Waits(a: Mesa, b: Mesa) {
    a.lock.Some? && b == Mesa(None, a.waiting + {a.lock.value}, a.woken)
  }

  /** The lock's holder wakes one waiter, if there is one. */
  ghost predicate Wakes(a: Mesa, b: Mesa) {
    a.lock.Some? && if a.waiting == {} then b == a
      else exists w :: w in a.waiting && b == Mesa(a.lock, a.waiting - {w}, a.woken + {w})
  }

  /** A woken thread gets the lock back. */
  ghost predicate Resumes(a: Mesa, b: Mesa) {
    a.lock == None && exists w :: w in a.woken && b == Mesa(Some(w), a.waiting, a.woken - {w})
  }

  ghost predicate OnTheWayBack(s: State, t: Tid) {
    t < |s.pc| && t !in s.waiters && (s.pc[t] == Released || s.pc[t] == Woken || s.pc[t] == Relocking)
  }

  ghost function Abstract(s: State): Mesa {
    Mesa(s.lock,
         set t | t in s.waiters && t < |s.pc| && s.pc[t] != Queued,
         set t | 0 <= t < |s.pc| && OnTheWayBack(s, t))
  }

  /** There have been as many signals as waits have ended or are on their way to. */
  ghost predicate Accounts(s: State) {
    s.signals == s.ended + |Abstract(s).woken|
  }

  ghost predicate Inv(s: State) {
    Exclusion(s) && SemasOk(s) && Accounts(s)
  }

  lemma SignalledIs(s: State, t: Tid, k: nat)
    requires Exclusion(s) && SemasOk(s) && Enabled(s, t, Signal(k)) && s.waiters != []
    ensures Exclusion(Signalled(s, k)) && SemasOk(Signalled(s, k))
    ensures var w, a, b := s.waiters[k], Abstract(s), Abstract(Signalled(s, k));
      w in a.waiting && w !in a.woken && b == Mesa(a.lock, a.waiting - {w}, a.woken + {w})
  {
    var w, s' := s.waiters[k], Signalled(s, k);
    WithoutIs(s.waiters, k);
    assert w in s.waiters && s.lock == Some(t);
    assert Abstract(s').waiting == Abstract(s).waiting - {w};
    forall u | 0 <= u < |s.pc| ensures OnTheWayBack(s', u) <==> OnTheWayBack(s, u) || u == w {
      assert SemaOk(s.pc[u], u in s.waiters, s.value[u]);
    }
    assert Abstract(s').woken == Abstract(s).woken + {w};
  }

  lemma StepKeepsExclusion(s: State, t: Tid, a: Act)
    requires Exclusion(s) && SemasOk(s) && Enabled(s, t, a)
    ensures Exclusion(Step(s, t, a))
  {
    if a.Signal? && s.waiters != [] {
      SignalledIs(s, t, a.k);
    }
  }

  lemma StepKeepsSemas(s: State, t: Tid, a: Act)
    requires Exclusion(s) && SemasOk(s) && Enabled(s, t, a)
    ensures SemasOk(Step(s, t, a))
  {
    assert SemaOk(s.pc[t], t in s.waiters, s.value[t]);
    if a.Signal? && s.waiters != [] {
      SignalledIs(s, t, a.k);
    }
  }

  /** Every step is a step of the Mesa condition or none: a wait is one step however its primitives are interleaved with
      other threads, a signal reaches a waiter if there is one, and only a signal ends a wait. */
  lemma StepRefines(s: State, t: Tid, a: Act)
    requires Exclusion(s) && SemasOk(s) && Enabled(s, t, a)
    ensures var x, y := Abstract(s), Abstract(Step(s, t, a));
      match a
      case Enter => LockMoves(x, y)
      case Leave => LockMoves(x, y)
      case Queue => y == x
      case Unlock => Waits(x, y)
      case Down => y == x
      case Relock => Resumes(x, y)
      case Signal(_) => Wakes(x, y)
  {
    assert SemaOk(s.pc[t], t in s.waiters, s.value[t]);
    match a {
      case Signal(k) => SignalRefines(s, t, k);
      case Relock => RelockResumes(s, t);
      case _ => PlainStepRefines(s, t, a);
    }
  }

  lemma SignalRefines(s: State, t: Tid, k: nat)
    requires Exclusion(s) && SemasOk(s) && Enabled(s, t, Signal(k))
    ensures Wakes(Abstract(s), Abstract(Step(s, t, Signal(k))))
  {
    assert s.lock == Some(t);
    if s.waiters == [] {
      assert Abstract(s).waiting == {};
    } else {
      SignalledIs(s, t, k);
      assert s.waiters[k] in Abstract(s).waiting;
    }
  }

  lemma RelockResumes(s: State, t: Tid)
    requires Exclusion(s) && SemasOk(s) && Enabled(s, t, Relock)
    ensures Resumes(Abstract(s), Abstract(Step(s, t, Relock)))
    ensures |Abstract(Step(s, t, Relock)).woken| == |Abstract(s).woken| - 1
  {
    var x, y := Abstract(s), Abstract(Step(s, t, Relock));
    assert SemaOk(s.pc[t], t in s.waiters, s.value[t]);
    assert OnTheWayBack(s, t) && t in x.woken;
    forall u | 0 <= u < |s.pc| ensures OnTheWayBack(Step(s, t, Relock), u) <==> OnTheWayBack(s, u) && u != t {
    }
    assert y.woken == x.woken - {t} && y.waiting == x.waiting;
  }

  lemma PlainStepRefines(s: State, t: Tid, a: Act)
    requires Exclusion(s) && SemasOk(s) && Enabled(s, t, a) && !a.Signal? && !a.Relock?
    ensures var x, y := Abstract(s), Abstract(Step(s, t, a));
      && y.woken == x.woken
      && y.waiting == (if a.Unlock? then x.waiting + {t} else x.waiting)
      && (a.Unlock? ==> x.lock == Some(t))
  {
    var s' := Step(s, t, a);
    assert SemaOk(s.pc[t], t in s.waiters, s.value[t]);
    forall u | 0 <= u < |s.pc| ensures OnTheWayBack(s', u) <==> OnTheWayBack(s, u) {
      assert u in s'.waiters <==> u in s.waiters || (a.Queue? && u == t);
    }
    assert Abstract(s').woken == Abstract(s).woken;
    forall u | u in s'.waiters ensures u in s.waiters || (a.Queue? && u == t) {
    }
    assert Abstract(s').waiting == if a.Unlock? then Abstract(s).waiting + {t} else Abstract(s).waiting;
  }

  lemma StepKeepsInv(s: State, t: Tid, a: Act)
    requires Inv(s) && Enabled(s, t, a)
    ensures Inv(Step(s, t, a))
  {
    StepKeepsExclusion(s, t, a);
    StepKeepsSemas(s, t, a);
    match a {
      case Signal(k) =>
        if s.waiters != [] {
          SignalledIs(s, t, k);
        }
      case Relock => RelockResumes(s, t);
      case _ => PlainStepRefines(s, t, a);
    }
  }

  // ---------------------------------------------------------------- runs

  /** Threads outside the monitor. */
  ghost predicate IsStart(s: State) {
    && s.lock == None && s.waiters == [] && s.signals == s.ended == 0 && |s.value| == |s.pc| == |s.priority|
    && forall t :: 0 <= t < |s.pc| ==> s.pc[t] == Outside
  }

  ghost predicate OneStep(s: State, s': State) {
    exists t, a :: Enabled(s, t, a) && s' == Step(s, t, a)
  }

  ghost predicate Run(run: seq<State>) {
    && |run| > 0 && IsStart(run[0])
    && forall i :: 0 < i < |run| ==> OneStep(run[i - 1], run[i])
  }

  /** No spurious wake-up: in any run the waits that have ended are never more than the signals that found a waiter, and
      the difference is just the threads on their way back. */
  lemma {:induction false} WaitsEndBySignals(run: seq<State>, i: nat)
    requires Run(run) && i < |run|
    ensures Inv(run[i])
    ensures run[i].ended + |Abstract(run[i]).woken| == run[i].signals
  {
    if i > 0 {
      WaitsEndBySignals(run, i - 1);
      assert OneStep(run[i - 1], run[i]);
      var t, a :| Enabled(run[i - 1], t, a) && run[i] == Step(run[i - 1], t, a);
      StepKeepsInv(run[i - 1], t, a);
    } else {
      assert Abstract(run[0]).woken == {};
    }
  }

  /** A run in which two threads have queued and given the lock up but not gone to sleep yet when a third, holding the
      lock, is about to signal: comparing the two panics. Giving up a lock that nobody waits for yields the processor,
      so this takes no timer interrupt. */
  lemma SignalMayPanic() returns (run: seq<State>)
    ensures Run(run)
    ensures var s := run[|run| - 1];
      s.lock == Some(2) && |s.pc| == 3 && s.pc[2] == Inside && s.waiters == [0, 1] && !Comparable(s)
  {
    var s0 := ThreeThreads(None, [], [Outside, Outside, Outside]);
    var s3 := ThreeThreads(None, [0], [Released, Outside, Outside]);
    var s6 := ThreeThreads(None, [0, 1], [Released, Released, Outside]);
    var s7 := ThreeThreads(Some(2), [0, 1], [Released, Released, Inside]);
    var s1, s2 := WaitsWithoutSleeping(s0, 0, s3);
    var s4, s5 := WaitsWithoutSleeping(s3, 1, s6);
    assert OneStep(s6, s7) by {
      assert Enabled(s6, 2, Enter) && s7 == Step(s6, 2, Enter);
    }
    run := [s0, s1, s2, s3, s4, s5, s6, s7];
    assert !IsAsleep(s7, s7.waiters[0]);
  }

  function ThreeThreads(lock: Option<Tid>, waiters: seq<Tid>, pc: seq<Pc>): State {
    State(lock, waiters, pc, [0, 0, 0], [31, 31, 31], 0, 0)
  }

  lemma WaitsWithoutSleeping(s: State, t: Tid, s': State) returns (s1: State, s2: State)
    requires Enabled(s, t, Enter) && s.value[t] == 0
    requires s' == s.(waiters := s.waiters + [t], pc := s.pc[t := Released])
    ensures OneStep(s, s1) && OneStep(s1, s2) && OneStep(s2, s')
  {
    s1 := Step(s, t, Enter);
    s2 := Step(s1, t, Queue);
    assert s' == Step(s2, t, Unlock);
  }

  // ---------------------------------------------------------------- the code

  class ConditionVariable {
    var lock: Option<Tid>
    var waiters: seq<Tid>
    var pc: seq<Pc>
    var value: seq<nat>
    var priority: seq<int>
    ghost var signals: nat
    ghost var ended: nat

    ghost function Abs(): State
      reads this
    {
      State(lock, waiters, pc, value, priority, signals, ended)
    }

    constructor (priority: seq<int>)
      ensures IsStart(Abs()) && |pc| == |priority| && this.priority == priority
    {
      lock, waiters := None, [];
      pc, value := seq(|priority|, _ => Outside), seq(|priority|, _ => 0);
      this.priority := priority;
      signals, ended := 0, 0;
    }

    /** The first part of `cond_wait`: a new semaphore joins the list. */
    method Enqueue(t: Tid)
      requires Enabled(Abs(), t, Queue)
      modifies this
      ensures Abs() == Step(old(Abs()), t, Queue)
    {
      value := value[t := 0];
      waiters := waiters + [t];
      pc := pc[t := Queued];
    }

    method Release(t: Tid)
      requires Enabled(Abs(), t, Unlock)
      modifies this
      ensures Abs() == Step(old(Abs()), t, Unlock)
    {
      lock := None;
      pc := pc[t := Released];
    }

    /** One pass of `sema_down` on the thread's own semaphore. */
    method SemaDown(t: Tid)
      requires Enabled(Abs(), t, Down)
      modifies this
      ensures Abs() == Step(old(Abs()), t, Down)
    {
      if value[t] == 0 {
        pc := pc[t := Asleep];
      } else {
        value := value[t := value[t] - 1];
        pc := pc[t := Relocking];
      }
    }

    method Reacquire(t: Tid)
      requires Enabled(Abs(), t, Relock)
      modifies this
      ensures Abs() == Step(old(Abs()), t, Relock)
    {
      lock := Some(t);
      pc := pc[t := Inside];
      ended := ended + 1;
    }

    /** `list_max` under `cond_cmp`, and whether it got through without a panic. */
    method MaxWaiter() returns (ok: bool, k: nat)
      requires SemasOk(Abs()) && waiters != []
      ensures ok <==> Comparable(Abs())
      ensures ok ==> IsFirstHighest(priority, waiters, k)
    {
      k := 0;
      assert waiters[0] in waiters;
      for e := 1 to |waiters|
        invariant k < e && forall i :: 0 <= i < e ==> waiters[i] < |priority|
        invariant e > 1 ==> forall i :: 0 <= i < e ==> IsAsleep(Abs(), waiters[i])
        invariant forall i :: 0 <= i < e ==> priority[waiters[i]] <= priority[waiters[k]]
        invariant forall i :: 0 <= i < k ==> priority[waiters[i]] < priority[waiters[k]]
      {
        assert waiters[k] in waiters && waiters[e] in waiters;
        if pc[waiters[k]] != Asleep || pc[waiters[e]] != Asleep {
          assert !IsAsleep(Abs(), waiters[k]) || !IsAsleep(Abs(), waiters[e]);
          return false, k;
        }
        if priority[waiters[k]] < priority[waiters[e]] {
          k := e;
        }
      }
      ok := true;
    }

    /** `cond_signal`; if it panics, nothing has changed. */
    method SignalOne(t: Tid) returns (ok: bool, ghost k: nat)
      requires t < |pc| && pc[t] == Inside && SemasOk(Abs())
      modifies this
      ensures ok <==> Comparable(old(Abs()))
      ensures ok ==> Enabled(old(Abs()), t, Signal(k)) && Abs() == Step(old(Abs()), t, Signal(k))
      ensures !ok ==> Abs() == old(Abs())
    {
      ok, k := true, 0;
      if waiters != [] {
        var max;
        ok, max := MaxWaiter();
        k := max;
        if ok {
          var w := waiters[max];
          assert w in waiters;
          waiters := Without(waiters, max);
          if pc[w] == Asleep {
            pc := pc[w := Woken];
          }
          value := value[w := value[w] + 1];
          signals := signals + 1;
        }
      }
    }

    /** `cond_broadcast`: gets through just when the first signal does, and then leaves nobody waiting. */
    method Broadcast(t: Tid) returns (ok: bool)
      requires lock == Some(t) && t < |pc| && pc[t] == Inside && Exclusion(Abs()) && SemasOk(Abs())
      modifies this
      ensures ok <==> Comparable(old(Abs()))
      ensures ok ==> waiters == [] && signals == old(signals) + |old(waiters)|
      ensures Exclusion(Abs()) && SemasOk(Abs()) && lock == old(lock) && pc[t] == Inside && ended == old(ended)
    {
      ok := true;
      while waiters != []
        invariant t < |pc| && pc[t] == Inside && lock == Some(t) && Exclusion(Abs()) && SemasOk(Abs())
        invariant Comparable(Abs()) <==> Comparable(old(Abs()))
        invariant signals + |waiters| == old(signals) + |old(waiters)| && ended == old(ended)
        decreases |waiters|
      {
        ghost var s := Abs();
        ghost var k;
        ok, k := SignalOne(t);
        if !ok {
          return;
        }
        SignalledIs(s, t, k);
        StillComparable(s, t, k);
      }
    }
  }

  /** Waking one of the sleepers leaves the others asleep. */
  lemma StillComparable(s: State, t: Tid, k: nat)
    requires SemasOk(s) && Enabled(s, t, Signal(k)) && s.waiters != []
    ensures Comparable(Signalled(s, k))
  {
    var s' := Signalled(s, k);
    forall i | 0 <= i < |s'.waiters| && |s.waiters| > 1 ensures IsAsleep(s', s'.waiters[i]) {
      var j := if i < k then i else i + 1;
      assert s'.waiters[i] == s.waiters[j] != s.waiters[k] && IsAsleep(s, s.waiters[j]);
    }
  }
}
