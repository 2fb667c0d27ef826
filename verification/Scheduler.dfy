/** Thread scheduling: the ready list, semaphore wait lists, sleeping on the timer, and time slices. Interrupts are off
    inside each step, so each is atomic. */
module Scheduler {
  import opened Common

  const TIME_SLICE := 4

  datatype Status = Running | Ready | Blocked | Dying

  /** A thread inside `sema_down` has not got past its loop on that semaphore yet. */
  datatype Doing = Normal | Downing(sema: nat)

  /** `remain` is ticks_remain. `until`, kept for the statements below, is the tick at which the thread last went to
      sleep plus the length of that sleep. */
  datatype Thread = Thread(status: Status, priority: int, remain: nat, doing: Doing, until: nat)

  datatype Sema = Sema(value: nat, waiters: seq<nat>)

  /** Threads are numbered in the order of the list of all threads. `slice` is thread_ticks. */
  datatype State = State(
    threads: seq<Thread>, ready: seq<nat>, current: nat, idle: nat, semas: seq<Sema>, ticks: nat, slice: nat)

  // ---------------------------------------------------------------- choosing from a list

  predicate InTable(threads: seq<Thread>, list: seq<nat>) {
    forall i :: 0 <= i < |list| ==> list[i] < |threads|
  }

  /** Nobody in the list has a higher priority than its `k`-th, and everybody before that one has a lower. */
  predicate IsFirstHighest(threads: seq<Thread>, list: seq<nat>, k: nat)
    requires k < |list| && InTable(threads, list)
  {
    && (forall i :: 0 <= i < |list| ==> threads[list[i]].priority <= threads[list[k]].priority)
    && (forall i :: 0 <= i < k ==> threads[list[i]].priority < threads[list[k]].priority)
  }

  /** list_max under the priority order: the first among the highest. */
  function FirstMax(threads: seq<Thread>, list: seq<nat>): (k: nat)
    requires list != [] && InTable(threads, list)
    ensures k < |list|
    ensures forall i :: 0 <= i < |list| ==> threads[list[i]].priority <= threads[list[k]].priority
    ensures forall i :: 0 <= i < k ==> threads[list[i]].priority < threads[list[k]].priority
  {
    if |list| == 1 then 0
    else
      var k := FirstMax(threads, list[..|list| - 1]);
      if threads[list[k]].priority < threads[list[|list| - 1]].priority then |list| - 1 else k
  }

  // ---------------------------------------------------------------- what every state keeps

  /** The ready list is exactly the ready threads other than the idle thread, each once. */
  ghost predicate ReadyOk(s: State) {
    && NoDup(s.ready)
    && forall t: nat :: t in s.ready <==> t < |s.threads| && t != s.idle && s.threads[t].status.Ready?
  }

  /** A semaphore's wait list is exactly the threads blocked on it, each once. */
  ghost predicate WaitersOk(s: State) {
    && (forall i :: 0 <= i < |s.semas| ==> NoDup(s.semas[i].waiters))
    && forall i: nat, t: nat :: i < |s.semas| ==> WaitsIfBlocked(s, i, t)
  }

  predicate WaitsIfBlocked(s: State, i: nat, t: nat)
    requires i < |s.semas|
  {
    t in s.semas[i].waiters <==> t < |s.threads| && s.threads[t].status.Blocked? && s.threads[t].doing == Downing(i)
  }

  /** A sleeping thread is blocked, on no semaphore, and has as many ticks left as it is from the end of its sleep. A
      blocked thread is waiting, asleep or the idle thread: none is lost. */
  predicate ThreadOk(th: Thread, isIdle: bool, semas: nat, ticks: nat) {
    && (th.remain > 0 ==> th.status.Blocked? && th.doing.Normal? && !isIdle && th.until == ticks + th.remain)
    && (th.status.Blocked? && !isIdle && th.doing.Normal? ==> th.remain > 0)
    && (isIdle ==> th.doing.Normal? && !th.status.Dying?)
    && (th.doing.Downing? ==> th.doing.sema < semas && !th.status.Dying?)
  }

  ghost predicate ThreadsOk(s: State) {
    && s.idle < |s.threads|
    && forall t :: 0 <= t < |s.threads| ==> ThreadOk(s.threads[t], t == s.idle, |s.semas|, s.ticks)
  }

  ghost predicate Core(s: State) {
    ReadyOk(s) && WaitersOk(s) && ThreadsOk(s)
  }

  ghost predicate NoneRunning(s: State) {
    forall t :: 0 <= t < |s.threads| ==> !s.threads[t].status.Running?
  }

  ghost predicate OneRunning(s: State) {
    && s.current < |s.threads|
    && forall t :: 0 <= t < |s.threads| ==> (s.threads[t].status.Running? <==> t == s.current)
  }

  ghost predicate Inv(s: State) {
    Core(s) && OneRunning(s)
  }

  // ---------------------------------------------------------------- the pieces of a step

  function WithStatus(s: State, t: nat, status: Status): State
    requires t < |s.threads|
  {
    s.(threads := s.threads[t := s.threads[t].(status := status)])
  }

  /** schedule: the next thread to run, with a new time slice. */
  function Schedule(s: State): (r: State)
    requires s.idle < |s.threads| && InTable(s.threads, s.ready)
    ensures |r.threads| == |s.threads| && r.ticks == s.ticks && r.semas == s.semas && r.idle == s.idle
  {
    if s.ready == [] then WithStatus(s, s.idle, Running).(current := s.idle, slice := 0)
    else
      var k := FirstMax(s.threads, s.ready);
      WithStatus(s, s.ready[k], Running).(ready := Without(s.ready, k), current := s.ready[k], slice := 0)
  }

  lemma ReadyInTable(s: State)
    requires ReadyOk(s)
    ensures InTable(s.threads, s.ready)
  {
    forall i | 0 <= i < |s.ready| ensures s.ready[i] < |s.threads| {
      assert s.ready[i] in s.ready;
    }
  }

  lemma ScheduleKeepsCore(s: State)
    requires Core(s) && NoneRunning(s)
    ensures InTable(s.threads, s.ready)
    ensures Inv(Schedule(s))
  {
    ReadyInTable(s);
    if s.ready != [] {
      var k := FirstMax(s.threads, s.ready);
      assert s.ready[k] in s.ready;
      WithoutIs(s.ready, k);
    }
    var s' := Schedule(s);
    StatusKeepsWaiters(s, s', s'.current);
    forall t: nat ensures t in s'.ready <==> t < |s'.threads| && t != s'.idle && s'.threads[t].status.Ready? {
      assert t in s.ready <==> t < |s.threads| && t != s.idle && s.threads[t].status.Ready?;
    }
  }

  /** The wait lists stay right while no thread blocks or unblocks on a semaphore. */
  lemma StatusKeepsWaiters(s: State, s': State, t: nat)
    requires WaitersOk(s) && s'.semas == s.semas && |s'.threads| == |s.threads| && t < |s.threads|
    requires s'.threads == s.threads[t := s'.threads[t]] && s'.threads[t].doing == s.threads[t].doing
    requires s.threads[t].doing.Downing? ==> !s.threads[t].status.Blocked? && !s'.threads[t].status.Blocked?
    ensures WaitersOk(s')
  {
    forall i: nat, u: nat | i < |s.semas| ensures WaitsIfBlocked(s', i, u) {
      assert WaitsIfBlocked(s, i, u);
    }
  }

  /** Each dispatch picks a highest-priority ready thread, the first queued among equals, and the idle thread only when
      none is ready. */
  lemma DispatchPicksHighest(s: State)
    requires Core(s)
    ensures InTable(s.threads, s.ready)
    ensures var next := Schedule(s).current;
      if s.ready == [] then next == s.idle
      else next in s.ready && exists k :: 0 <= k < |s.ready| && s.ready[k] == next && IsFirstHighest(s.threads, s.ready, k)
  {
    ReadyInTable(s);
    if s.ready != [] {
      assert IsFirstHighest(s.threads, s.ready, FirstMax(s.threads, s.ready));
    }
  }

  /** thread_unblock */
  function Unblock(s: State, t: nat): State
    requires t < |s.threads|
  {
    WithStatus(s, t, Ready).(ready := s.ready + [t])
  }

  /** The running thread gives way: to the end of the ready list, unless it is the idle thread. */
  function Requeue(s: State): State
    requires s.current < |s.threads|
  {
    WithStatus(s, s.current, Ready).(ready := if s.current != s.idle then s.ready + [s.current] else s.ready)
  }

  lemma RequeueKeepsCore(s: State)
    requires Inv(s)
    ensures Core(Requeue(s)) && NoneRunning(Requeue(s))
  {
    assert s.current !in s.ready;
    var s' := Requeue(s);
    StatusKeepsWaiters(s, s', s.current);
    forall t: nat ensures t in s'.ready <==> t < |s'.threads| && t != s'.idle && s'.threads[t].status.Ready? {
      assert t in s.ready <==> t < |s.threads| && t != s.idle && s.threads[t].status.Ready?;
    }
  }

  function Yield(s: State): (r: State)
    requires Inv(s)
    ensures |r.threads| == |s.threads| && r.ticks == s.ticks && r.semas == s.semas && r.idle == s.idle
  {
    RequeueKeepsCore(s);
    ScheduleKeepsCore(Requeue(s));
    Schedule(Requeue(s))
  }

  lemma YieldKeepsInv(s: State)
    requires Inv(s)
    ensures Inv(Yield(s))
  {
    RequeueKeepsCore(s);
    ScheduleKeepsCore(Requeue(s));
  }

  // ---------------------------------------------------------------- the steps

  function Current(s: State): Thread
    requires s.current < |s.threads|
  {
    s.threads[s.current]
  }

  function WithCurrent(s: State, th: Thread): State
    requires s.current < |s.threads|
  {
    s.(threads := s.threads[s.current := th])
  }

  /** The running thread blocks on semaphore `i`. */
  function WaitOn(s: State, i: nat): State
    requires s.current < |s.threads| && i < |s.semas|
  {
    var sema := s.semas[i];
    WithCurrent(s, Current(s).(status := Blocked, doing := Downing(i)))
      .(semas := s.semas[i := sema.(waiters := sema.waiters + [s.current])])
  }

  lemma WaitKeepsCore(s: State, i: nat)
    requires Inv(s) && i < |s.semas| && s.current != s.idle
    ensures Core(WaitOn(s, i)) && NoneRunning(WaitOn(s, i))
  {
    var s' := WaitOn(s, i);
    assert WaitsIfBlocked(s, i, s.current);
    forall t: nat ensures t in s'.ready <==> t < |s'.threads| && t != s'.idle && s'.threads[t].status.Ready? {
      assert t in s.ready <==> t < |s.threads| && t != s.idle && s.threads[t].status.Ready?;
    }
    forall j: nat, t: nat | j < |s'.semas| ensures WaitsIfBlocked(s', j, t) {
      assert WaitsIfBlocked(s, j, t);
    }
  }

  /** One pass of sema_down's loop test and what follows it. */
  function SemaDown(s: State, i: nat): State
    requires Inv(s) && i < |s.semas| && s.current != s.idle
  {
    if s.semas[i].value == 0 then
      WaitKeepsCore(s, i);
      ReadyInTable(WaitOn(s, i));
      Schedule(WaitOn(s, i))
    else
      WithCurrent(s, Current(s).(doing := Normal))
        .(semas := s.semas[i := s.semas[i].(value := s.semas[i].value - 1)])
  }

  lemma SemaDownKeepsInv(s: State, i: nat)
    requires Inv(s) && i < |s.semas| && s.current != s.idle
    ensures Inv(SemaDown(s, i))
  {
    if s.semas[i].value == 0 {
      WaitKeepsCore(s, i);
      ScheduleKeepsCore(WaitOn(s, i));
    } else {
      var s' := SemaDown(s, i);
      forall t: nat ensures t in s'.ready <==> t < |s'.threads| && t != s'.idle && s'.threads[t].status.Ready? {
        assert t in s.ready <==> t < |s.threads| && t != s.idle && s.threads[t].status.Ready?;
      }
      forall j: nat, t: nat | j < |s'.semas| ensures WaitsIfBlocked(s', j, t) {
      assert WaitsIfBlocked(s, j, t);
    }
    }
  }

  lemma WaitersInTable(s: State, i: nat)
    requires WaitersOk(s) && i < |s.semas|
    ensures InTable(s.threads, s.semas[i].waiters)
  {
    forall k | 0 <= k < |s.semas[i].waiters| ensures s.semas[i].waiters[k] < |s.threads| {
      assert WaitsIfBlocked(s, i, s.semas[i].waiters[k]);
    }
  }

  /** The waiter that sema_up picks. */
  function Picked(s: State, i: nat): (k: nat)
    requires WaitersOk(s) && i < |s.semas| && s.semas[i].waiters != []
    ensures k < |s.semas[i].waiters|
  {
    WaitersInTable(s, i);
    FirstMax(s.threads, s.semas[i].waiters)
  }

  /** The picked waiter leaves the wait list for the ready list. */
  function Wake(s: State, i: nat): State
    requires WaitersOk(s) && i < |s.semas| && s.semas[i].waiters != []
  {
    WaitersInTable(s, i);
    var k := Picked(s, i);
    var sema := s.semas[i];
    Unblock(s.(semas := s.semas[i := sema.(waiters := Without(sema.waiters, k))]), sema.waiters[k])
  }

  lemma WakeKeepsInv(s: State, i: nat)
    requires Inv(s) && i < |s.semas| && s.semas[i].waiters != []
    ensures Inv(Wake(s, i))
  {
    WaitersInTable(s, i);
    var k := Picked(s, i);
    var w, s' := s.semas[i].waiters[k], Wake(s, i);
    assert WaitsIfBlocked(s, i, w);
    WokenJoinsReady(s, w, s');
    WokenLeavesWaiters(s, i, k, s');
  }

  lemma WokenJoinsReady(s: State, w: nat, s': State)
    requires ReadyOk(s) && w < |s.threads| && w != s.idle && !s.threads[w].status.Ready?
    requires s'.threads == s.threads[w := s.threads[w].(status := Ready)] && s'.ready == s.ready + [w] && s'.idle == s.idle
    ensures ReadyOk(s')
  {
    assert w !in s.ready;
    forall t: nat ensures t in s'.ready <==> t < |s'.threads| && t != s'.idle && s'.threads[t].status.Ready? {
      assert t in s.ready <==> t < |s.threads| && t != s.idle && s.threads[t].status.Ready?;
    }
  }

  lemma WokenLeavesWaiters(s: State, i: nat, k: nat, s': State)
    requires WaitersOk(s) && i < |s.semas| && k < |s.semas[i].waiters|
    requires var w := s.semas[i].waiters[k];
      w < |s.threads| && s'.threads == s.threads[w := s.threads[w].(status := Ready)]
    requires s'.semas == s.semas[i := s.semas[i].(waiters := Without(s.semas[i].waiters, k))]
    ensures WaitersOk(s')
  {
    var w := s.semas[i].waiters[k];
    assert WaitsIfBlocked(s, i, w);
    WithoutIs(s.semas[i].waiters, k);
    forall j: nat, t: nat | j < |s'.semas| ensures WaitsIfBlocked(s', j, t) {
      assert WaitsIfBlocked(s, j, t);
    }
  }

  function Raised(s: State, i: nat): State
    requires i < |s.semas|
  {
    s.(semas := s.semas[i := s.semas[i].(value := s.semas[i].value + 1)])
  }

  lemma RaisedKeepsInv(s: State, i: nat)
    requires Inv(s) && i < |s.semas|
    ensures Inv(Raised(s, i))
  {
    forall j: nat, t: nat | j < |s.semas| ensures WaitsIfBlocked(Raised(s, i), j, t) {
      assert WaitsIfBlocked(s, j, t);
    }
  }

  /** sema_up: wakes a waiter, and gives way unless that waiter has no higher priority. */
  function SemaUp(s: State, i: nat): State
    requires Inv(s) && i < |s.semas|
  {
    if s.semas[i].waiters == [] then
      RaisedKeepsInv(s, i);
      Yield(Raised(s, i))
    else
      var w := s.semas[i].waiters[Picked(s, i)];
      WaitersInTable(s, i);
      WakeKeepsInv(s, i);
      RaisedKeepsInv(Wake(s, i), i);
      var s1 := Raised(Wake(s, i), i);
      if s.threads[w].priority > Current(s).priority then Yield(s1) else s1
  }

  lemma SemaUpKeepsInv(s: State, i: nat)
    requires Inv(s) && i < |s.semas|
    ensures Inv(SemaUp(s, i))
  {
    if s.semas[i].waiters == [] {
      RaisedKeepsInv(s, i);
      YieldKeepsInv(Raised(s, i));
    } else {
      WakeKeepsInv(s, i);
      RaisedKeepsInv(Wake(s, i), i);
      YieldKeepsInv(Raised(Wake(s, i), i));
    }
  }

  /** The running thread leaves the processor for good, for a sleep, or as the idle thread. */
  function Leave(s: State, th: Thread): State
    requires s.current < |s.threads|
  {
    WithCurrent(s, th)
  }

  lemma LeaveKeepsCore(s: State, th: Thread)
    requires Inv(s) && !th.status.Running? && !th.status.Ready? && th.doing.Normal?
    requires ThreadOk(th, s.current == s.idle, |s.semas|, s.ticks)
    ensures Core(Leave(s, th)) && NoneRunning(Leave(s, th))
  {
    var s' := Leave(s, th);
    forall t: nat ensures t in s'.ready <==> t < |s'.threads| && t != s'.idle && s'.threads[t].status.Ready? {
      assert t in s.ready <==> t < |s.threads| && t != s.idle && s.threads[t].status.Ready?;
    }
    forall j: nat, t: nat | j < |s'.semas| ensures WaitsIfBlocked(s', j, t) {
      assert WaitsIfBlocked(s, j, t);
    }
  }

  function Asleep(s: State, n: nat): Thread
    requires s.current < |s.threads|
  {
    Current(s).(status := Blocked, remain := n, until := s.ticks + n)
  }

  function TimerSleep(s: State, n: int): State
    requires Inv(s) && s.current != s.idle && Current(s).doing.Normal?
  {
    if n <= 0 then s
    else
      LeaveKeepsCore(s, Asleep(s, n));
      ReadyInTable(Leave(s, Asleep(s, n)));
      Schedule(Leave(s, Asleep(s, n)))
  }

  function Exit(s: State): State
    requires Inv(s) && s.current != s.idle && Current(s).doing.Normal?
  {
    LeaveKeepsCore(s, Current(s).(status := Dying));
    ReadyInTable(Leave(s, Current(s).(status := Dying)));
    Schedule(Leave(s, Current(s).(status := Dying)))
  }

  function IdleBlock(s: State): State
    requires Inv(s) && s.current == s.idle
  {
    LeaveKeepsCore(s, Current(s).(status := Blocked));
    ReadyInTable(Leave(s, Current(s).(status := Blocked)));
    Schedule(Leave(s, Current(s).(status := Blocked)))
  }

  lemma LeavingKeepsInv(s: State, n: int)
    requires Inv(s) && Current(s).doing.Normal?
    ensures s.current != s.idle ==> Inv(TimerSleep(s, n)) && Inv(Exit(s))
    ensures s.current == s.idle ==> Inv(IdleBlock(s))
  {
    if s.current == s.idle {
      LeaveKeepsCore(s, Current(s).(status := Blocked));
      ScheduleKeepsCore(Leave(s, Current(s).(status := Blocked)));
    } else {
      LeaveKeepsCore(s, Current(s).(status := Dying));
      ScheduleKeepsCore(Leave(s, Current(s).(status := Dying)));
      if n > 0 {
        LeaveKeepsCore(s, Asleep(s, n));
        ScheduleKeepsCore(Leave(s, Asleep(s, n)));
      }
    }
  }

  /** A new thread joins the ready list. */
  function Added(s: State, priority: int): State {
    s.(threads := s.threads + [Thread(Ready, priority, 0, Normal, 0)], ready := s.ready + [|s.threads|])
  }

  lemma AddedKeepsInv(s: State, priority: int)
    requires Inv(s)
    ensures Inv(Added(s, priority))
  {
    var s' := Added(s, priority);
    assert |s.threads| !in s.ready;
    forall t: nat ensures t in s'.ready <==> t < |s'.threads| && t != s'.idle && s'.threads[t].status.Ready? {
      assert t in s.ready <==> t < |s.threads| && t != s.idle && s.threads[t].status.Ready?;
    }
    forall j: nat, t: nat | j < |s.semas| ensures WaitsIfBlocked(s', j, t) {
      assert WaitsIfBlocked(s, j, t);
    }
  }

  function Create(s: State, priority: int): State
    requires Inv(s)
  {
    AddedKeepsInv(s, priority);
    if Current(s).priority < priority then Yield(Added(s, priority)) else Added(s, priority)
  }

  /** The highest priority of all threads but those that have exited; -1 if there are none. */
  function MaxPriority(threads: seq<Thread>, n: nat): int
    requires n <= |threads|
  {
    if n == 0 then -1
    else
      var m := MaxPriority(threads, n - 1);
      if !threads[n - 1].status.Dying? && threads[n - 1].priority > m then threads[n - 1].priority else m
  }

  /** Thread `t` gets another priority: by its own wish, by a donation or from the multi-level feedback formulas. */
  function Reprioritised(s: State, t: nat, priority: int): State
    requires t < |s.threads|
  {
    s.(threads := s.threads[t := s.threads[t].(priority := priority)])
  }

  lemma ReprioritisedKeepsInv(s: State, t: nat, priority: int)
    requires Inv(s) && t < |s.threads|
    ensures Inv(Reprioritised(s, t, priority))
  {
    var s' := Reprioritised(s, t, priority);
    forall u: nat ensures u in s'.ready <==> u < |s'.threads| && u != s'.idle && s'.threads[u].status.Ready? {
      assert u in s.ready <==> u < |s.threads| && u != s.idle && s.threads[u].status.Ready?;
    }
    forall j: nat, u: nat | j < |s.semas| ensures WaitsIfBlocked(s', j, u) {
      assert WaitsIfBlocked(s, j, u);
    }
  }

  /** What thread_set_priority makes of a request: while the thread holds a lock its priority is only raised. */
  function Granted(th: Thread, priority: int, holdsLock: bool): int {
    if !holdsLock || priority > th.priority then priority else th.priority
  }

  /** thread_set_priority */
  function SetPriority(s: State, priority: int, holdsLock: bool): State
    requires Inv(s)
  {
    var p := Granted(Current(s), priority, holdsLock);
    ReprioritisedKeepsInv(s, s.current, p);
    var s1 := Reprioritised(s, s.current, p);
    if p < MaxPriority(s1.threads, |s1.threads|) then Yield(s1) else s1
  }

  function SemaInit(s: State, value: nat): State {
    s.(semas := s.semas + [Sema(value, [])])
  }

  lemma SemaInitKeepsInv(s: State, value: nat)
    requires Inv(s)
    ensures Inv(SemaInit(s, value))
  {
    forall j: nat, t: nat | j < |s.semas| + 1 ensures WaitsIfBlocked(SemaInit(s, value), j, t) {
      assert j < |s.semas| ==> WaitsIfBlocked(s, j, t);
    }
  }

  // ---------------------------------------------------------------- the timer

  predicate Wakes(th: Thread) {
    th.status.Blocked? && th.remain == 1
  }

  /** check_remain on one thread. */
  function Checked(th: Thread): Thread {
    if !th.status.Blocked? || th.remain == 0 then th
    else if th.remain == 1 then th.(remain := 0, status := Ready)
    else th.(remain := th.remain - 1)
  }

  /** The threads among the first `n` whose sleep ends now, in order. */
  function Woken(threads: seq<Thread>, n: nat): (r: seq<nat>)
    requires n <= |threads|
    ensures forall t: nat :: t in r <==> t < n && Wakes(threads[t])
  {
    if n == 0 then [] else Woken(threads, n - 1) + if Wakes(threads[n - 1]) then [n - 1] else []
  }

  lemma {:induction false} WokenOnce(threads: seq<Thread>, n: nat)
    requires n <= |threads|
    ensures NoDup(Woken(threads, n))
  {
    if n > 0 {
      WokenOnce(threads, n - 1);
    }
  }

  /** The tick as counted, with every sleeper checked. */
  function Ticked(s: State): State {
    s.(threads := seq(|s.threads|, t requires 0 <= t < |s.threads| => Checked(s.threads[t])),
       ready := s.ready + Woken(s.threads, |s.threads|), ticks := s.ticks + 1, slice := s.slice + 1)
  }

  lemma TickedKeepsInv(s: State)
    requires Inv(s)
    ensures Inv(Ticked(s))
  {
    var s', w := Ticked(s), Woken(s.threads, |s.threads|);
    WokenOnce(s.threads, |s.threads|);
    forall t: nat ensures t in s'.ready <==> t < |s'.threads| && t != s'.idle && s'.threads[t].status.Ready? {
      assert t in s.ready <==> t < |s.threads| && t != s.idle && s.threads[t].status.Ready?;
      assert t in s'.ready <==> t in s.ready || t in w;
      assert t < |s.threads| ==> ThreadOk(s.threads[t], t == s.idle, |s.semas|, s.ticks);
    }
    forall j: nat, t: nat | j < |s.semas| ensures WaitsIfBlocked(s', j, t) {
      assert WaitsIfBlocked(s, j, t);
      assert t < |s.threads| ==> ThreadOk(s.threads[t], t == s.idle, |s.semas|, s.ticks);
    }
    forall i, j | 0 <= i < j < |s'.ready| ensures s'.ready[i] != s'.ready[j] {
      assert j < |s.ready| || i >= |s.ready| || (s.ready[i] in s.ready && w[j - |s.ready|] in w);
    }
  }

  /** The timer interrupt; a thread that has used up its slice gives way. */
  function Tick(s: State): State
    requires Inv(s)
  {
    TickedKeepsInv(s);
    if s.slice + 1 >= TIME_SLICE then Yield(Ticked(s)) else Ticked(s)
  }

  // ---------------------------------------------------------------- runs

  datatype Event =
    | Down(sema: nat) | Up(sema: nat) | Init(value: nat) | Sleep(n: int) | Spawn(priority: int)
    | GiveWay | Finish | Idle | Set(priority: int, holdsLock: bool) | Donate(thread: nat, priority: int) | TimerTick

  /** Whether the event can happen: a thread inside sema_down can only go on with it. */
  predicate Legal(s: State, e: Event) {
    && s.current < |s.threads|
    && (Current(s).doing.Downing? ==> e.TimerTick? || e.Donate? || e == Down(Current(s).doing.sema))
    && match e
       case Down(i) => i < |s.semas| && s.current != s.idle
       case Up(i) => i < |s.semas|
       case Sleep(_) => s.current != s.idle
       case Finish => s.current != s.idle
       case Idle => s.current == s.idle
       case Donate(t, _) => t < |s.threads|
       case _ => true
  }

  function Next(s: State, e: Event): State
    requires Inv(s) && Legal(s, e)
  {
    match e
    case Down(i) => SemaDown(s, i)
    case Up(i) => SemaUp(s, i)
    case Init(v) => SemaInit(s, v)
    case Sleep(n) => TimerSleep(s, n)
    case Spawn(p) => Create(s, p)
    case GiveWay => Yield(s)
    case Finish => Exit(s)
    case Idle => IdleBlock(s)
    case Set(p, holdsLock) => SetPriority(s, p, holdsLock)
    case Donate(t, p) => Reprioritised(s, t, p)
    case TimerTick => Tick(s)
  }

  lemma CreateKeepsInv(s: State, priority: int)
    requires Inv(s)
    ensures Inv(Create(s, priority))
  {
    AddedKeepsInv(s, priority);
    YieldKeepsInv(Added(s, priority));
  }

  lemma SetPriorityKeepsInv(s: State, priority: int, holdsLock: bool)
    requires Inv(s)
    ensures Inv(SetPriority(s, priority, holdsLock))
  {
    var granted := Granted(Current(s), priority, holdsLock);
    ReprioritisedKeepsInv(s, s.current, granted);
    YieldKeepsInv(Reprioritised(s, s.current, granted));
  }

  lemma TickKeepsInv(s: State)
    requires Inv(s)
    ensures Inv(Tick(s))
  {
    TickedKeepsInv(s);
    YieldKeepsInv(Ticked(s));
  }

  lemma NextKeepsInv(s: State, e: Event)
    requires Inv(s) && Legal(s, e)
    ensures Inv(Next(s, e))
  {
    match e {
      case Down(i) => SemaDownKeepsInv(s, i);
      case Up(i) => SemaUpKeepsInv(s, i);
      case Init(v) => SemaInitKeepsInv(s, v);
      case Sleep(n) => LeavingKeepsInv(s, n);
      case Spawn(p) => CreateKeepsInv(s, p);
      case GiveWay => YieldKeepsInv(s);
      case Finish => LeavingKeepsInv(s, 0);
      case Idle => LeavingKeepsInv(s, 0);
      case Set(p, holdsLock) => SetPriorityKeepsInv(s, p, holdsLock);
      case Donate(t, p) => ReprioritisedKeepsInv(s, t, p);
      case TimerTick => TickKeepsInv(s);
    }
  }

  ghost predicate IsStep(s: State, e: Event, s': State) {
    Inv(s) ==> Legal(s, e) && s' == Next(s, e)
  }

  lemma StepKeepsInv(s: State, e: Event, s': State)
    requires Inv(s) && IsStep(s, e, s')
    ensures Inv(s')
  {
    NextKeepsInv(s, e);
  }

  /** A run from a good state, one legal event after another. */
  ghost predicate IsRun(run: seq<State>, events: seq<Event>) {
    && |run| == |events| + 1 && Inv(run[0])
    && forall i :: 0 <= i < |events| ==> IsStep(run[i], events[i], run[i + 1])
  }

  /** In every state of every run one thread runs, and the lists are as they should be. */
  lemma {:induction false} InvInAnyRun(run: seq<State>, events: seq<Event>, i: nat)
    requires IsRun(run, events) && i < |run|
    ensures Inv(run[i])
  {
    if i > 0 {
      InvInAnyRun(run, events, i - 1);
      StepKeepsInv(run[i - 1], events[i - 1], run[i]);
    }
  }

  // ---------------------------------------------------------------- sleeping exactly long enough

  predicate IsAsleep(s: State, t: nat) {
    t < |s.threads| && s.threads[t].status.Blocked? && s.threads[t].remain > 0
  }

  predicate IsAwake(s: State, t: nat) {
    t < |s.threads| && (s.threads[t].status.Ready? || s.threads[t].status.Running?) && s.threads[t].remain == 0
  }

  lemma SleeperIsElsewhere(s: State, t: nat)
    requires Inv(s) && IsAsleep(s, t)
    ensures t != s.current && t != s.idle && t !in s.ready
    ensures forall i: nat :: i < |s.semas| ==> t !in s.semas[i].waiters
  {
    assert ThreadOk(s.threads[t], t == s.idle, |s.semas|, s.ticks);
    forall i: nat | i < |s.semas| ensures t !in s.semas[i].waiters {
      assert WaitsIfBlocked(s, i, t);
    }
  }

  /** Thread `t` is in `s'` as it was in `s`. */
  predicate SameThread(s: State, s': State, t: nat) {
    t < |s.threads| <= |s'.threads| && s'.threads[t] == s.threads[t]
  }

  /** Neither running nor ready. */
  predicate IsOut(th: Thread) {
    th.status.Blocked? || th.status.Dying?
  }

  lemma ScheduleKeepsOut(s: State, t: nat)
    requires Core(s) && t < |s.threads| && IsOut(s.threads[t]) && t != s.idle
    ensures InTable(s.threads, s.ready)
    ensures SameThread(s, Schedule(s), t)
  {
    ReadyInTable(s);
    if s.ready != [] {
      assert s.ready[FirstMax(s.threads, s.ready)] in s.ready;
    }
  }

  lemma YieldKeepsOut(s: State, t: nat)
    requires Inv(s) && t < |s.threads| && IsOut(s.threads[t]) && t != s.idle
    ensures SameThread(s, Yield(s), t)
  {
    RequeueKeepsCore(s);
    ScheduleKeepsOut(Requeue(s), t);
  }

  lemma LeaveKeepsOthers(s: State, th: Thread, t: nat)
    requires Inv(s) && !th.status.Running? && !th.status.Ready? && th.doing.Normal?
    requires ThreadOk(th, s.current == s.idle, |s.semas|, s.ticks)
    requires t < |s.threads| && IsOut(s.threads[t]) && t != s.idle
    ensures InTable(Leave(s, th).threads, Leave(s, th).ready)
    ensures SameThread(s, Schedule(Leave(s, th)), t)
  {
    LeaveKeepsCore(s, th);
    ScheduleKeepsOut(Leave(s, th), t);
  }

  /** Nothing but the timer touches a sleeping thread, and only a donation to it its priority. */
  lemma OnlyTimerWakesSleeper(s: State, e: Event, t: nat)
    requires Inv(s) && Legal(s, e) && IsAsleep(s, t) && !e.TimerTick?
    ensures if e.Donate? && e.thread == t then Next(s, e).threads == s.threads[t := s.threads[t].(priority := e.priority)]
      else SameThread(s, Next(s, e), t)
  {
    SleeperIsElsewhere(s, t);
    match e {
      case Down(i) => DownKeepsSleeper(s, i, t);
      case Up(i) => UpKeepsSleeper(s, i, t);
      case Init(v) =>
      case Sleep(n) =>
        if n > 0 {
          LeaveKeepsOthers(s, Asleep(s, n), t);
        }
      case Spawn(p) =>
        AddedKeepsInv(s, p);
        YieldKeepsOut(Added(s, p), t);
      case GiveWay => YieldKeepsOut(s, t);
      case Finish => LeaveKeepsOthers(s, Current(s).(status := Dying), t);
      case Idle => LeaveKeepsOthers(s, Current(s).(status := Blocked), t);
      case Set(p, holdsLock) =>
        var granted := Granted(Current(s), p, holdsLock);
        ReprioritisedKeepsInv(s, s.current, granted);
        YieldKeepsOut(Reprioritised(s, s.current, granted), t);
      case Donate(u, p) =>
    }
  }

  lemma DownKeepsSleeper(s: State, i: nat, t: nat)
    requires Inv(s) && i < |s.semas| && IsAsleep(s, t) && s.current != s.idle
    ensures SameThread(s, SemaDown(s, i), t)
  {
    SleeperIsElsewhere(s, t);
    if s.semas[i].value == 0 {
      WaitKeepsCore(s, i);
      ScheduleKeepsOut(WaitOn(s, i), t);
    }
  }

  lemma WakeKeepsOthers(s: State, i: nat, t: nat)
    requires WaitersOk(s) && i < |s.semas| && s.semas[i].waiters != [] && t < |s.threads| && t !in s.semas[i].waiters
    ensures SameThread(s, Wake(s, i), t) && SameThread(s, Raised(Wake(s, i), i), t)
  {
    WaitersInTable(s, i);
    assert s.semas[i].waiters[Picked(s, i)] in s.semas[i].waiters;
  }

  lemma UpKeepsSleeper(s: State, i: nat, t: nat)
    requires Inv(s) && i < |s.semas| && IsAsleep(s, t)
    ensures SameThread(s, SemaUp(s, i), t)
  {
    SleeperIsElsewhere(s, t);
    if s.semas[i].waiters == [] {
      RaisedKeepsInv(s, i);
      YieldKeepsOut(Raised(s, i), t);
    } else {
      WakeKeepsOthers(s, i, t);
      WakeKeepsInv(s, i);
      RaisedKeepsInv(Wake(s, i), i);
      YieldKeepsOut(Raised(Wake(s, i), i), t);
    }
  }

  lemma YieldKeepsAwake(s: State, t: nat)
    requires Inv(s) && IsAwake(s, t)
    ensures IsAwake(Yield(s), t)
  {
    RequeueKeepsCore(s);
    assert IsAwake(Requeue(s), t);
    ScheduleKeepsAwake(Requeue(s), t);
  }

  lemma ScheduleKeepsAwake(s: State, t: nat)
    requires Core(s) && IsAwake(s, t)
    ensures InTable(s.threads, s.ready) && IsAwake(Schedule(s), t)
  {
    ReadyInTable(s);
  }

  /** A tick counts down a sleeper, and wakes it just when its sleep ends. */
  lemma TickAndSleeper(s: State, t: nat)
    requires Inv(s) && IsAsleep(s, t)
    ensures s.threads[t].until > s.ticks
    ensures s.threads[t].until == s.ticks + 1 ==> IsAwake(Tick(s), t)
    ensures s.threads[t].until != s.ticks + 1 ==> IsAsleep(Tick(s), t) && Tick(s).threads[t].until == s.threads[t].until
  {
    SleeperIsElsewhere(s, t);
    TickedKeepsInv(s);
    assert ThreadOk(s.threads[t], t == s.idle, |s.semas|, s.ticks);
    assert Ticked(s).threads[t] == Checked(s.threads[t]);
    if s.threads[t].remain == 1 {
      YieldKeepsAwake(Ticked(s), t);
    } else {
      YieldKeepsOut(Ticked(s), t);
    }
  }

  /** Only the timer moves the clock, by one. */
  lemma TicksGrow(s: State, e: Event)
    requires Inv(s) && Legal(s, e)
    ensures Next(s, e).ticks == if e.TimerTick? then s.ticks + 1 else s.ticks
  {
  }

  lemma FallsAsleep(s: State, n: nat)
    requires Inv(s) && Legal(s, Sleep(n)) && n > 0
    ensures IsAsleep(Next(s, Sleep(n)), s.current)
    ensures Next(s, Sleep(n)).threads[s.current].until == s.ticks + n
  {
    LeaveKeepsCore(s, Asleep(s, n));
    ScheduleKeepsOut(Leave(s, Asleep(s, n)), s.current);
  }

  /** In state `s` of a run, the thread that went to sleep until tick `end` is still asleep, if that is yet to come. */
  predicate SleepsUntil(s: State, t: nat, end: nat) {
    s.ticks < end ==> IsAsleep(s, t) && s.threads[t].until == end
  }

  /** One step towards the end of a sleep: it lasts until then, and is over in the state right after. */
  lemma SleepStep(s: State, e: Event, t: nat, end: nat)
    requires Inv(s) && Legal(s, e) && SleepsUntil(s, t, end)
    ensures SleepsUntil(Next(s, e), t, end)
    ensures s.ticks < end <= Next(s, e).ticks ==> Next(s, e).ticks == end && IsAwake(Next(s, e), t)
  {
    TicksGrow(s, e);
    if s.ticks < end {
      if e.TimerTick? {
        TickAndSleeper(s, t);
      } else {
        OnlyTimerWakesSleeper(s, e, t);
      }
    }
  }

  /** A thread that calls timer_sleep(n) with n > 0 stays asleep while fewer than n ticks have gone by, and is awake in
      the state right after the n-th, in every run. */
  lemma {:induction false} SleepsExactly(run: seq<State>, events: seq<Event>, i: nat, j: nat, n: nat)
    requires IsRun(run, events) && i < j < |run| && n > 0 && events[i] == Sleep(n)
    ensures SleepsUntil(run[j], run[i].current, run[i].ticks + n)
    ensures run[j - 1].ticks < run[i].ticks + n <= run[j].ticks ==>
      run[j].ticks == run[i].ticks + n && IsAwake(run[j], run[i].current)
  {
    InvInAnyRun(run, events, j - 1);
    assert IsStep(run[j - 1], events[j - 1], run[j]);
    if j == i + 1 {
      FallsAsleep(run[i], n);
      TicksGrow(run[i], events[i]);
    } else {
      SleepsExactly(run, events, i, j - 1, n);
      SleepStep(run[j - 1], events[j - 1], run[i].current, run[i].ticks + n);
    }
  }

  /** The timer wakes no thread that waits on a semaphore. */
  lemma TickWakesNoWaiter(s: State, i: nat, t: nat)
    requires Inv(s) && i < |s.semas| && t in s.semas[i].waiters
    ensures SameThread(s, Tick(s), t) && Tick(s).semas == s.semas
  {
    assert WaitsIfBlocked(s, i, t);
    assert ThreadOk(s.threads[t], t == s.idle, |s.semas|, s.ticks);
    TickedKeepsInv(s);
    assert SameThread(s, Ticked(s), t);
    YieldKeepsOut(Ticked(s), t);
  }

  // ---------------------------------------------------------------- exiting for good

  /** Whatever happens, a thread that has exited does not come back. */
  lemma DyingStays(s: State, e: Event, t: nat)
    requires Inv(s) && Legal(s, e) && t < |s.threads| && s.threads[t].status.Dying?
    ensures t < |Next(s, e).threads| && Next(s, e).threads[t].status.Dying?
  {
    assert ThreadOk(s.threads[t], t == s.idle, |s.semas|, s.ticks);
    match e {
      case Down(i) =>
        if s.semas[i].value == 0 {
          WaitKeepsCore(s, i);
          ScheduleKeepsOut(WaitOn(s, i), t);
        }
      case Up(i) => UpKeepsDying(s, i, t);
      case Init(v) =>
      case Sleep(n) =>
        if n > 0 {
          LeaveKeepsOthers(s, Asleep(s, n), t);
        }
      case Finish => LeaveKeepsOthers(s, Current(s).(status := Dying), t);
      case Idle => LeaveKeepsOthers(s, Current(s).(status := Blocked), t);
      case Donate(u, p) =>
      case Spawn(p) => SpawnKeepsDying(s, p, t);
      case GiveWay => YieldKeepsOut(s, t);
      case Set(p, holdsLock) => SetKeepsDying(s, p, holdsLock, t);
      case TimerTick => TickKeepsDying(s, t);
    }
  }

  lemma SpawnKeepsDying(s: State, p: int, t: nat)
    requires Inv(s) && t < |s.threads| && t != s.idle && s.threads[t].status.Dying?
    ensures t < |Create(s, p).threads| && Create(s, p).threads[t].status.Dying?
  {
    AddedKeepsInv(s, p);
    YieldKeepsOut(Added(s, p), t);
  }

  lemma SetKeepsDying(s: State, p: int, holdsLock: bool, t: nat)
    requires Inv(s) && t < |s.threads| && t != s.idle && s.threads[t].status.Dying?
    ensures t < |SetPriority(s, p, holdsLock).threads| && SetPriority(s, p, holdsLock).threads[t].status.Dying?
  {
    var granted := Granted(Current(s), p, holdsLock);
    ReprioritisedKeepsInv(s, s.current, granted);
    YieldKeepsOut(Reprioritised(s, s.current, granted), t);
  }

  lemma TickKeepsDying(s: State, t: nat)
    requires Inv(s) && t < |s.threads| && t != s.idle && s.threads[t].status.Dying?
    ensures t < |Tick(s).threads| && Tick(s).threads[t].status.Dying?
  {
    TickedKeepsInv(s);
    assert Ticked(s).threads[t] == Checked(s.threads[t]);
    YieldKeepsOut(Ticked(s), t);
  }

  lemma UpKeepsDying(s: State, i: nat, t: nat)
    requires Inv(s) && i < |s.semas| && t < |s.threads| && t != s.idle && s.threads[t].status.Dying?
    ensures t < |SemaUp(s, i).threads| && SemaUp(s, i).threads[t].status.Dying?
  {
    assert WaitsIfBlocked(s, i, t);
    if s.semas[i].waiters == [] {
      RaisedKeepsInv(s, i);
      YieldKeepsOut(Raised(s, i), t);
    } else {
      WakeKeepsOthers(s, i, t);
      WakeKeepsInv(s, i);
      RaisedKeepsInv(Wake(s, i), i);
      YieldKeepsOut(Raised(Wake(s, i), i), t);
    }
  }

  lemma FinishDies(s: State)
    requires Inv(s) && Legal(s, Finish)
    ensures Next(s, Finish).threads[s.current].status.Dying?
  {
    LeaveKeepsCore(s, Current(s).(status := Dying));
    ScheduleKeepsOut(Leave(s, Current(s).(status := Dying)), s.current);
  }

  /** A thread that calls thread_exit never runs again, in any run. */
  lemma {:induction false} ExitedNeverRuns(run: seq<State>, events: seq<Event>, i: nat, j: nat)
    requires IsRun(run, events) && i < j < |run| && events[i] == Finish
    ensures var t := run[i].current; t < |run[j].threads| && run[j].threads[t].status.Dying? && run[j].current != t
  {
    InvInAnyRun(run, events, j - 1);
    InvInAnyRun(run, events, j);
    assert IsStep(run[j - 1], events[j - 1], run[j]);
    if j == i + 1 {
      FinishDies(run[i]);
    } else {
      ExitedNeverRuns(run, events, i, j - 1);
      DyingStays(run[j - 1], events[j - 1], run[i].current);
    }
  }

  // ---------------------------------------------------------------- units

  /** How many of the first `n` events put a unit into semaphore `i`. */
  function PutIn(events: seq<Event>, i: nat, n: nat): nat
    requires n <= |events|
  {
    if n == 0 then 0 else PutIn(events, i, n - 1) + if events[n - 1] == Up(i) then 1 else 0
  }

  /** How many of them found one there to take. */
  function TakenOut(run: seq<State>, events: seq<Event>, i: nat, n: nat): nat
    requires n <= |events| && n < |run|
  {
    if n == 0 then 0
    else TakenOut(run, events, i, n - 1) + if TakesUnit(run[n - 1], events[n - 1], i) then 1 else 0
  }

  predicate TakesUnit(s: State, e: Event, i: nat) {
    e == Down(i) && i < |s.semas| && s.semas[i].value > 0
  }

  lemma OneUnit(s: State, e: Event, i: nat)
    requires Inv(s) && Legal(s, e) && i < |s.semas|
    ensures i < |Next(s, e).semas|
    ensures Next(s, e).semas[i].value == s.semas[i].value
      + (if e == Up(i) then 1 else if TakesUnit(s, e, i) then -1 else 0)
  {
    if e.Up? && s.semas[e.sema].waiters != [] {
      RaisedAfterWake(s, e.sema);
    }
  }

  /** No unit is made or lost: in any run a semaphore has those it started with and those put in, less those taken. */
  lemma {:induction false} UnitsAreConserved(run: seq<State>, events: seq<Event>, i: nat, n: nat)
    requires IsRun(run, events) && n <= |events| && i < |run[0].semas|
    ensures i < |run[n].semas|
    ensures run[n].semas[i].value + TakenOut(run, events, i, n) == run[0].semas[i].value + PutIn(events, i, n)
  {
    if n > 0 {
      UnitsAreConserved(run, events, i, n - 1);
      InvInAnyRun(run, events, n - 1);
      assert IsStep(run[n - 1], events[n - 1], run[n]);
      OneUnit(run[n - 1], events[n - 1], i);
    }
  }

  // ---------------------------------------------------------------- no lost wake-up

  /** Woken on semaphore `i`, and not yet past its loop. */
  predicate IsPending(th: Thread, i: nat) {
    th.doing == Downing(i) && !th.status.Blocked?
  }

  function Pending(threads: seq<Thread>, i: nat, n: nat): nat
    requires n <= |threads|
  {
    if n == 0 then 0 else Pending(threads, i, n - 1) + if IsPending(threads[n - 1], i) then 1 else 0
  }

  lemma {:induction false} PendingSame(a: seq<Thread>, b: seq<Thread>, i: nat, n: nat)
    requires n <= |a| && n <= |b| && forall t :: 0 <= t < n ==> (IsPending(a[t], i) <==> IsPending(b[t], i))
    ensures Pending(a, i, n) == Pending(b, i, n)
  {
    if n > 0 {
      PendingSame(a, b, i, n - 1);
    }
  }

  lemma {:induction false} PendingUpdate(a: seq<Thread>, t: nat, th: Thread, i: nat, n: nat)
    requires t < n <= |a|
    ensures Pending(a[t := th], i, n) == Pending(a, i, n)
      + (if IsPending(th, i) then 1 else 0) - (if IsPending(a[t], i) then 1 else 0)
  {
    if t == n - 1 {
      PendingSame(a[t := th], a, i, n - 1);
    } else {
      PendingUpdate(a, t, th, i, n - 1);
    }
  }

  /** If threads wait on a semaphore, each unit of its value is spoken for by a woken thread on its way to take it. */
  ghost predicate Spoken(s: State, i: nat)
    requires i < |s.semas|
  {
    s.semas[i].waiters != [] ==> s.semas[i].value <= Pending(s.threads, i, |s.threads|)
  }

  ghost predicate NoLostWakeup(s: State) {
    forall i: nat :: i < |s.semas| ==> Spoken(s, i)
  }

  /** Steps that change no thread's dealings with semaphores keep this. */
  lemma SamePendingKeeps(s: State, s': State)
    requires NoLostWakeup(s) && s'.semas == s.semas && |s'.threads| == |s.threads|
    requires forall t :: 0 <= t < |s.threads| ==> SameDealing(s.threads[t], s'.threads[t])
    ensures NoLostWakeup(s')
  {
    forall i: nat | i < |s.semas| ensures Spoken(s', i) {
      assert Spoken(s, i);
      forall t | 0 <= t < |s.threads| ensures IsPending(s.threads[t], i) <==> IsPending(s'.threads[t], i) {
        assert SameDealing(s.threads[t], s'.threads[t]);
      }
      PendingSame(s.threads, s'.threads, i, |s.threads|);
    }
  }

  predicate SameDealing(a: Thread, b: Thread) {
    a.doing == b.doing && (a.doing.Downing? ==> (a.status.Blocked? <==> b.status.Blocked?))
  }

  lemma ScheduleKeepsWakeups(s: State)
    requires Core(s) && NoneRunning(s) && NoLostWakeup(s)
    ensures InTable(s.threads, s.ready) && NoLostWakeup(Schedule(s))
  {
    ReadyInTable(s);
    if s.ready != [] {
      assert s.ready[FirstMax(s.threads, s.ready)] in s.ready;
    }
    SamePendingKeeps(s, Schedule(s));
  }

  lemma YieldKeepsWakeups(s: State)
    requires Inv(s) && NoLostWakeup(s)
    ensures NoLostWakeup(Yield(s))
  {
    RequeueKeepsCore(s);
    SamePendingKeeps(s, Requeue(s));
    ScheduleKeepsWakeups(Requeue(s));
  }

  lemma DownKeepsWakeups(s: State, i: nat)
    requires Inv(s) && NoLostWakeup(s) && i < |s.semas| && s.current != s.idle
    requires Current(s).doing.Downing? ==> Current(s).doing.sema == i
    ensures NoLostWakeup(SemaDown(s, i))
  {
    if s.semas[i].value == 0 {
      var s1 := WaitOn(s, i);
      forall j: nat | j < |s.semas| ensures Spoken(s1, j) {
        assert Spoken(s, j);
        PendingUpdate(s.threads, s.current, s1.threads[s.current], j, |s.threads|);
      }
      WaitKeepsCore(s, i);
      ScheduleKeepsWakeups(s1);
    } else {
      var s1 := SemaDown(s, i);
      forall j: nat | j < |s.semas| ensures Spoken(s1, j) {
        assert Spoken(s, j);
        PendingUpdate(s.threads, s.current, s1.threads[s.current], j, |s.threads|);
      }
    }
  }

  lemma UpKeepsWakeups(s: State, i: nat)
    requires Inv(s) && NoLostWakeup(s) && i < |s.semas|
    ensures NoLostWakeup(SemaUp(s, i))
  {
    if s.semas[i].waiters == [] {
      RaisedKeepsInv(s, i);
      forall j: nat | j < |s.semas| ensures Spoken(Raised(s, i), j) {
        assert Spoken(s, j);
      }
      YieldKeepsWakeups(Raised(s, i));
    } else {
      WaitersInTable(s, i);
      WakeKeepsInv(s, i);
      RaisedKeepsInv(Wake(s, i), i);
      var s1, w := Raised(Wake(s, i), i), s.semas[i].waiters[Picked(s, i)];
      assert WaitsIfBlocked(s, i, w);
      forall j: nat | j < |s.semas| ensures Spoken(s1, j) {
        assert Spoken(s, j);
        PendingUpdate(s.threads, w, s1.threads[w], j, |s.threads|);
      }
      YieldKeepsWakeups(s1);
    }
  }

  lemma AddedKeepsWakeups(s: State, priority: int)
    requires NoLostWakeup(s)
    ensures NoLostWakeup(Added(s, priority))
  {
    forall i: nat | i < |s.semas| ensures Spoken(Added(s, priority), i) {
      assert Spoken(s, i);
      PendingSame(s.threads, Added(s, priority).threads, i, |s.threads|);
    }
  }

  lemma InitKeepsWakeups(s: State, value: nat)
    requires NoLostWakeup(s)
    ensures NoLostWakeup(SemaInit(s, value))
  {
    forall i: nat | i < |s.semas| + 1 ensures Spoken(SemaInit(s, value), i) {
      assert i < |s.semas| ==> Spoken(s, i);
    }
  }

  lemma LeaveKeepsWakeups(s: State, th: Thread)
    requires Inv(s) && NoLostWakeup(s) && Current(s).doing.Normal? && th.doing.Normal?
    requires !th.status.Running? && !th.status.Ready? && ThreadOk(th, s.current == s.idle, |s.semas|, s.ticks)
    ensures InTable(Leave(s, th).threads, Leave(s, th).ready) && NoLostWakeup(Schedule(Leave(s, th)))
  {
    LeaveKeepsCore(s, th);
    SamePendingKeeps(s, Leave(s, th));
    ScheduleKeepsWakeups(Leave(s, th));
  }

  lemma TickKeepsWakeups(s: State)
    requires Inv(s) && NoLostWakeup(s)
    ensures NoLostWakeup(Tick(s))
  {
    forall t | 0 <= t < |s.threads| ensures SameDealing(s.threads[t], Ticked(s).threads[t]) {
      assert ThreadOk(s.threads[t], t == s.idle, |s.semas|, s.ticks);
    }
    SamePendingKeeps(s, Ticked(s));
    TickedKeepsInv(s);
    YieldKeepsWakeups(Ticked(s));
  }

  lemma NextKeepsWakeups(s: State, e: Event)
    requires Inv(s) && NoLostWakeup(s) && Legal(s, e)
    ensures NoLostWakeup(Next(s, e))
  {
    match e {
      case Down(i) => DownKeepsWakeups(s, i);
      case Up(i) => UpKeepsWakeups(s, i);
      case Init(v) => InitKeepsWakeups(s, v);
      case Sleep(n) =>
        if n > 0 {
          LeaveKeepsWakeups(s, Asleep(s, n));
        }
      case Spawn(p) =>
        AddedKeepsInv(s, p);
        AddedKeepsWakeups(s, p);
        YieldKeepsWakeups(Added(s, p));
      case GiveWay => YieldKeepsWakeups(s);
      case Finish => LeaveKeepsWakeups(s, Current(s).(status := Dying));
      case Idle => LeaveKeepsWakeups(s, Current(s).(status := Blocked));
      case Set(p, holdsLock) =>
        var s1 := Reprioritised(s, s.current, Granted(Current(s), p, holdsLock));
        ReprioritisedKeepsInv(s, s.current, Granted(Current(s), p, holdsLock));
        SamePendingKeeps(s, s1);
        YieldKeepsWakeups(s1);
      case Donate(t, p) => SamePendingKeeps(s, Reprioritised(s, t, p));
      case TimerTick => TickKeepsWakeups(s);
    }
  }

  /** No wake-up is ever lost: in every run, a semaphore with waiters has no more units than woken threads about to take
      them. */
  lemma {:induction false} NoLostWakeupInAnyRun(run: seq<State>, events: seq<Event>, i: nat)
    requires IsRun(run, events) && NoLostWakeup(run[0]) && i < |run|
    ensures NoLostWakeup(run[i])
  {
    if i > 0 {
      NoLostWakeupInAnyRun(run, events, i - 1);
      InvInAnyRun(run, events, i - 1);
      assert IsStep(run[i - 1], events[i - 1], run[i]);
      NextKeepsWakeups(run[i - 1], events[i - 1]);
    }
  }

  // ---------------------------------------------------------------- the highest priority runs

  /** No ready thread has a higher priority than the running one. */
  ghost predicate RunsHighest(s: State) {
    s.current < |s.threads| && forall t :: t in s.ready && t < |s.threads| ==> s.threads[t].priority <= Current(s).priority
  }

  lemma ScheduleRunsHighest(s: State)
    requires Core(s)
    ensures InTable(s.threads, s.ready) && RunsHighest(Schedule(s))
  {
    ReadyInTable(s);
  }

  lemma YieldRunsHighest(s: State)
    requires Inv(s)
    ensures RunsHighest(Yield(s))
  {
    RequeueKeepsCore(s);
    ScheduleRunsHighest(Requeue(s));
  }

  lemma LeaveRunsHighest(s: State, th: Thread)
    requires Inv(s) && !th.status.Running? && !th.status.Ready? && th.doing.Normal?
    requires ThreadOk(th, s.current == s.idle, |s.semas|, s.ticks)
    ensures InTable(Leave(s, th).threads, Leave(s, th).ready) && RunsHighest(Schedule(Leave(s, th)))
  {
    LeaveKeepsCore(s, th);
    ScheduleRunsHighest(Leave(s, th));
  }

  lemma UpRunsHighest(s: State, i: nat)
    requires Inv(s) && i < |s.semas| && RunsHighest(s)
    ensures RunsHighest(SemaUp(s, i))
  {
    if s.semas[i].waiters == [] {
      RaisedKeepsInv(s, i);
      YieldRunsHighest(Raised(s, i));
    } else {
      RaisedAfterWake(s, i);
      YieldRunsHighest(Raised(Wake(s, i), i));
    }
  }

  lemma {:induction false} MaxPriorityIs(threads: seq<Thread>, n: nat, t: nat)
    requires t < n <= |threads| && !threads[t].status.Dying?
    ensures threads[t].priority <= MaxPriority(threads, n)
  {
    if t < n - 1 {
      MaxPriorityIs(threads, n - 1, t);
    }
  }

  /** After a thread has set its own priority the highest runs, even if another ran before. */
  lemma SetRunsHighest(s: State, priority: int, holdsLock: bool)
    requires Inv(s)
    ensures RunsHighest(SetPriority(s, priority, holdsLock))
  {
    var p := Granted(Current(s), priority, holdsLock);
    var s1 := Reprioritised(s, s.current, p);
    ReprioritisedKeepsInv(s, s.current, p);
    YieldRunsHighest(s1);
    forall t | t in s1.ready && t < |s1.threads| ensures s1.threads[t].priority <= MaxPriority(s1.threads, |s1.threads|) {
      MaxPriorityIs(s1.threads, |s1.threads|, t);
    }
  }

  lemma DownRunsHighest(s: State, i: nat)
    requires Inv(s) && i < |s.semas| && s.current != s.idle && RunsHighest(s)
    ensures RunsHighest(SemaDown(s, i))
  {
    if s.semas[i].value == 0 {
      WaitKeepsCore(s, i);
      ScheduleRunsHighest(WaitOn(s, i));
    }
  }

  lemma CreateRunsHighest(s: State, priority: int)
    requires Inv(s) && RunsHighest(s)
    ensures RunsHighest(Create(s, priority))
  {
    AddedKeepsInv(s, priority);
    YieldRunsHighest(Added(s, priority));
  }

  const PRI_DEFAULT := 31

  /** What `thread_start` leaves: the initial thread runs and the idle thread has given way to it, or has blocked since.
      The ready list is empty and nobody waits on any of the semaphores. */
  predicate IsBooted(s: State) {
    && |s.threads| == 2 && s.ready == [] && s.current == 0 && s.idle == 1
    && s.threads == [Thread(Running, PRI_DEFAULT, 0, Normal, 0), Thread(s.threads[1].status, 0, 0, Normal, 0)]
    && (s.threads[1].status.Ready? || s.threads[1].status.Blocked?)
    && forall i :: 0 <= i < |s.semas| ==> s.semas[i].waiters == []
  }

  /** That is a state for runs to start from, so whatever happens afterwards one thread runs, no wake-up is lost, and
      the lists are as they should be. */
  lemma BootedRuns(run: seq<State>, events: seq<Event>, i: nat)
    requires |run| == |events| + 1 && IsBooted(run[0]) && i < |run|
    requires forall j :: 0 <= j < |events| ==> IsStep(run[j], events[j], run[j + 1])
    ensures Inv(run[0]) && NoLostWakeup(run[0]) && RunsHighest(run[0])
    ensures Inv(run[i]) && NoLostWakeup(run[i])
  {
    var s := run[0];
    assert s.threads[0].status.Running?;
    assert forall j: nat, t: nat :: j < |s.semas| ==> WaitsIfBlocked(s, j, t);
    InvInAnyRun(run, events, i);
    NoLostWakeupInAnyRun(run, events, i);
  }

  /** Priority scheduling: whatever the running thread does, the processor goes to the highest priority that is ready. */
  lemma NextRunsHighest(s: State, e: Event)
    requires Inv(s) && Legal(s, e) && RunsHighest(s) && !e.TimerTick? && !e.Donate?
    ensures RunsHighest(Next(s, e))
  {
    match e {
      case Down(i) => DownRunsHighest(s, i);
      case Up(i) => UpRunsHighest(s, i);
      case Init(v) =>
      case Sleep(n) =>
        if n > 0 {
          LeaveRunsHighest(s, Asleep(s, n));
        }
      case Spawn(p) => CreateRunsHighest(s, p);
      case GiveWay => YieldRunsHighest(s);
      case Finish => LeaveRunsHighest(s, Current(s).(status := Dying));
      case Idle => LeaveRunsHighest(s, Current(s).(status := Blocked));
      case Set(p, holdsLock) => SetRunsHighest(s, p, holdsLock);
    }
  }

  /** A tick keeps it just when it ends the time slice or wakes nobody of a higher priority: the handler does not look
      at the priorities of the threads it wakes. */
  lemma TickRunsHighestIff(s: State)
    requires Inv(s) && RunsHighest(s)
    ensures RunsHighest(Tick(s)) <==>
      s.slice + 1 >= TIME_SLICE ||
      forall t :: 0 <= t < |s.threads| && Wakes(s.threads[t]) ==> s.threads[t].priority <= Current(s).priority
  {
    TickedKeepsInv(s);
    if s.slice + 1 >= TIME_SLICE {
      YieldRunsHighest(Ticked(s));
    } else {
      var s', w := Ticked(s), Woken(s.threads, |s.threads|);
      forall t: nat | t < |s.threads| ensures t in s'.ready <==> t in s.ready || Wakes(s.threads[t]) {
        assert t in s'.ready <==> t in s.ready || t in w;
      }
    }
  }

  /** Start-up; the initial thread creates one of priority 40, which runs at once and sleeps for a tick. */
  function SleeperRun(): seq<State> {
    var main, idle := Thread(Running, PRI_DEFAULT, 0, Normal, 0), Thread(Ready, 0, 0, Normal, 0);
    [State([main, idle], [], 0, 1, [], 0, 0),
     State([main.(status := Ready), idle, Thread(Running, 40, 0, Normal, 0)], [0], 2, 1, [], 0, 0),
     State([main, idle, Thread(Blocked, 40, 1, Normal, 1)], [], 0, 1, [], 0, 0),
     State([main, idle, Thread(Ready, 40, 0, Normal, 1)], [2], 0, 1, [], 1, 1)]
  }

  const SLEEPER_EVENTS := [Spawn(40), Sleep(1), TimerTick]

  lemma SleeperIsQueued()
    requires Inv(SleeperRun()[0])
    ensures Inv(Added(SleeperRun()[0], 40))
    ensures Requeue(Added(SleeperRun()[0], 40)) == SleeperRun()[1].(ready := [2, 0], current := 0,
      threads := SleeperRun()[1].threads[2 := Thread(Ready, 40, 0, Normal, 0)])
  {
    var s := SleeperRun()[0];
    AddedKeepsInv(s, 40);
    var r := Requeue(Added(s, 40));
    assert r.threads == SleeperRun()[1].threads[2 := Thread(Ready, 40, 0, Normal, 0)];
  }

  lemma SleeperIsSpawned()
    requires Inv(SleeperRun()[0])
    ensures IsStep(SleeperRun()[0], SLEEPER_EVENTS[0], SleeperRun()[1]) && Inv(SleeperRun()[1])
  {
    SleeperIsQueued();
    var r := Requeue(Added(SleeperRun()[0], 40));
    RequeueKeepsCore(Added(SleeperRun()[0], 40));
    ReadyInTable(r);
    assert FirstMax(r.threads, r.ready) == 0 && Without([2, 0], 0) == [0];
    assert Schedule(r).threads == SleeperRun()[1].threads;
    StepKeepsInv(SleeperRun()[0], SLEEPER_EVENTS[0], SleeperRun()[1]);
  }

  lemma SleeperSleeps()
    requires Inv(SleeperRun()[1])
    ensures IsStep(SleeperRun()[1], SLEEPER_EVENTS[1], SleeperRun()[2]) && Inv(SleeperRun()[2])
  {
    var s := SleeperRun()[1];
    var r := Leave(s, Asleep(s, 1));
    LeaveKeepsCore(s, Asleep(s, 1));
    ReadyInTable(r);
    assert FirstMax(r.threads, r.ready) == 0 && Without([0], 0) == [];
    assert Schedule(r).threads == SleeperRun()[2].threads;
    StepKeepsInv(s, SLEEPER_EVENTS[1], SleeperRun()[2]);
  }

  lemma OnlySleeperWoken(threads: seq<Thread>)
    requires |threads| == 3 && !Wakes(threads[0]) && !Wakes(threads[1]) && Wakes(threads[2])
    ensures Woken(threads, 3) == [2]
  {
    assert Woken(threads, 0) == [] && Woken(threads, 1) == [] && Woken(threads, 2) == [];
  }

  lemma SleeperIsWoken()
    requires Inv(SleeperRun()[2])
    ensures IsStep(SleeperRun()[2], SLEEPER_EVENTS[2], SleeperRun()[3]) && Inv(SleeperRun()[3])
  {
    var s := SleeperRun()[2];
    OnlySleeperWoken(s.threads);
    assert Ticked(s).threads == SleeperRun()[3].threads;
    StepKeepsInv(s, SLEEPER_EVENTS[2], SleeperRun()[3]);
  }

  lemma {:induction false} SleeperRunGoes(i: nat)
    requires i < 3 && Inv(SleeperRun()[0])
    ensures IsStep(SleeperRun()[i], SLEEPER_EVENTS[i], SleeperRun()[i + 1]) && Inv(SleeperRun()[i + 1])
  {
    SleeperIsSpawned();
    if i > 0 {
      SleeperSleeps();
    }
    if i > 1 {
      SleeperIsWoken();
    }
  }

  lemma SleeperRunStarts()
    ensures IsBooted(SleeperRun()[0]) && Inv(SleeperRun()[0])
  {
    BootedRuns([SleeperRun()[0]], [], 0);
  }

  /** The tick that ends its sleep does not let it run: in the middle of the slice a thread of a lower priority goes on. */
  lemma SleeperIsKeptWaiting()
    ensures IsBooted(SleeperRun()[0]) && IsRun(SleeperRun(), SLEEPER_EVENTS)
    ensures RunsHighest(SleeperRun()[2]) && !RunsHighest(SleeperRun()[3])
  {
    SleeperRunStarts();
    forall i | 0 <= i < 3 ensures IsStep(SleeperRun()[i], SLEEPER_EVENTS[i], SleeperRun()[i + 1]) {
      SleeperRunGoes(i);
    }
    assert 2 in SleeperRun()[3].ready;
  }

  /** A donation keeps it just when it lowers the running thread below no ready one, or raises no ready thread above it. */
  lemma DonationRunsHighestIff(s: State, t: nat, p: int)
    requires Inv(s) && RunsHighest(s) && t < |s.threads|
    ensures RunsHighest(Reprioritised(s, t, p)) <==>
      if t == s.current then forall u :: u in s.ready && u < |s.threads| ==> s.threads[u].priority <= p
      else t in s.ready ==> p <= Current(s).priority
  {
  }

  lemma Assoc(a: seq<nat>, b: seq<nat>, c: seq<nat>)
    ensures a + b + c == a + (b + c)
  {
  }

  lemma RaisedAfterWake(s: State, i: nat)
    requires Inv(s) && i < |s.semas| && s.semas[i].waiters != []
    ensures var w := s.semas[i].waiters[Picked(s, i)];
      var s1 := Raised(Wake(s, i), i);
      && w < |s.threads| == |s1.threads| && Inv(Wake(s, i)) && Inv(s1) && s1.current == s.current
      && s1.threads[w].priority == s.threads[w].priority && Current(s1) == Current(s)
      && SemaUp(s, i) == if s.threads[w].priority > Current(s).priority then Yield(s1) else s1
  {
    WaitersInTable(s, i);
    assert WaitsIfBlocked(s, i, s.semas[i].waiters[Picked(s, i)]);
    WakeKeepsInv(s, i);
    RaisedKeepsInv(Wake(s, i), i);
  }

  // ---------------------------------------------------------------- what each event comes to

  /** The processor passes to the first of the highest priorities in `queue`, or to the idle thread if nobody queues.
      `threads` is the table as the thread that gives way leaves it. */
  ghost predicate Passes(threads: seq<Thread>, queue: seq<nat>, idle: nat, s': State) {
    && InTable(threads, queue) && s'.current < |threads| && s'.slice == 0
    && (if queue == [] then s'.current == idle && s'.ready == []
        else exists k :: 0 <= k < |queue| && Picks(threads, queue, k, s'.current, s'.ready))
    && s'.threads == threads[s'.current := threads[s'.current].(status := Running)]
  }

  /** The `k`-th of `list` is the first of the highest priorities in it, and the others keep their order. */
  predicate Picks(threads: seq<Thread>, list: seq<nat>, k: nat, picked: nat, rest: seq<nat>)
    requires k < |list| && InTable(threads, list)
  {
    IsFirstHighest(threads, list, k) && picked == list[k] && rest == list[..k] + list[k + 1..]
  }

  /** The running thread goes on. */
  predicate GoesOn(s: State, threads: seq<Thread>, ready: seq<nat>, s': State) {
    s'.current == s.current && s'.slice == s.slice && s'.threads == threads && s'.ready == ready
  }

  /** It gives way as `threads` has it, behind everybody in `ready`; the idle thread does not queue. */
  ghost predicate GivesWay(s: State, threads: seq<Thread>, ready: seq<nat>, s': State)
    requires s.current < |threads|
  {
    Passes(threads[s.current := threads[s.current].(status := Ready)],
           if s.current == s.idle then ready else ready + [s.current], s.idle, s')
  }

  predicate SemasKept(s: State, s': State) { s'.semas == s.semas && s'.idle == s.idle }

  lemma SchedulePasses(s: State)
    requires Core(s)
    ensures InTable(s.threads, s.ready)
    ensures Passes(s.threads, s.ready, s.idle, Schedule(s)) && SemasKept(s, Schedule(s))
  {
    ReadyInTable(s);
    if s.ready != [] {
      assert Picks(s.threads, s.ready, FirstMax(s.threads, s.ready), Schedule(s).current, Schedule(s).ready);
    }
  }

  lemma YieldGivesWay(s: State)
    requires Inv(s)
    ensures GivesWay(s, s.threads, s.ready, Yield(s)) && SemasKept(s, Yield(s))
  {
    RequeueKeepsCore(s);
    SchedulePasses(Requeue(s));
  }

  /** Down takes a unit or queues up behind the other waiters. */
  ghost predicate DownTo(s: State, i: nat, s': State)
    requires s.current < |s.threads| && i < |s.semas|
  {
    && s'.idle == s.idle
    && if s.semas[i].value > 0 then
         && s'.semas == s.semas[i := Sema(s.semas[i].value - 1, s.semas[i].waiters)]
         && GoesOn(s, s.threads[s.current := Current(s).(doing := Normal)], s.ready, s')
       else
         && s'.semas == s.semas[i := Sema(0, s.semas[i].waiters + [s.current])]
         && Passes(s.threads[s.current := Current(s).(status := Blocked, doing := Downing(i))], s.ready, s.idle, s')
  }

  lemma DownIs(s: State, i: nat)
    requires Inv(s) && i < |s.semas| && s.current != s.idle
    ensures DownTo(s, i, SemaDown(s, i))
  {
    if s.semas[i].value == 0 {
      WaitKeepsCore(s, i);
      SchedulePasses(WaitOn(s, i));
    }
  }

  /** Up adds a unit. Exactly one waiter, if there is any, leaves the wait list for the end of the ready list: of those
      with the highest priority the one that has waited longest. The caller gives way if nobody waits or if that waiter
      has a higher priority. */
  ghost predicate UpTo(s: State, i: nat, s': State)
    requires s.current < |s.threads| && i < |s.semas| && InTable(s.threads, s.semas[i].waiters)
  {
    && |s'.semas| == |s.semas| && s'.idle == s.idle
    && s'.semas == s.semas[i := Sema(s.semas[i].value + 1, s'.semas[i].waiters)]
    && if s.semas[i].waiters == [] then s'.semas[i].waiters == [] && GivesWay(s, s.threads, s.ready, s')
       else exists k :: 0 <= k < |s.semas[i].waiters| && UpWakes(s, i, k, s')
  }

  ghost predicate UpWakes(s: State, i: nat, k: nat, s': State)
    requires s.current < |s.threads| && i < |s.semas| && InTable(s.threads, s.semas[i].waiters)
    requires k < |s.semas[i].waiters|
  {
    var waiters := s.semas[i].waiters;
    var w := waiters[k];
    var threads := s.threads[w := s.threads[w].(status := Ready)];
    && i < |s'.semas| && Picks(s.threads, waiters, k, w, s'.semas[i].waiters)
    && if s.threads[w].priority > Current(s).priority then GivesWay(s, threads, s.ready + [w], s')
       else GoesOn(s, threads, s.ready + [w], s')
  }

  lemma UpIs(s: State, i: nat)
    requires Inv(s) && i < |s.semas|
    ensures InTable(s.threads, s.semas[i].waiters) && UpTo(s, i, SemaUp(s, i))
  {
    WaitersInTable(s, i);
    if s.semas[i].waiters == [] {
      RaisedKeepsInv(s, i);
      YieldGivesWay(Raised(s, i));
      GivesWaySame(Raised(s, i), s, s.threads, s.ready, SemaUp(s, i));
    } else {
      UpWakesPicked(s, i);
    }
  }

  lemma UpWakesPicked(s: State, i: nat)
    requires Inv(s) && i < |s.semas| && InTable(s.threads, s.semas[i].waiters) && s.semas[i].waiters != []
    ensures UpTo(s, i, SemaUp(s, i))
  {
    var s1, k := Raised(Wake(s, i), i), Picked(s, i);
    RaisedAfterWake(s, i);
    YieldGivesWay(s1);
    PickedIsFirst(s, i);
    WokenGoesOn(s, i, k, s1, SemaUp(s, i));
  }

  lemma PickedIsFirst(s: State, i: nat)
    requires WaitersOk(s) && i < |s.semas| && InTable(s.threads, s.semas[i].waiters) && s.semas[i].waiters != []
    ensures var k, waiters := Picked(s, i), s.semas[i].waiters;
      var w, s1 := waiters[k], Raised(Wake(s, i), i);
      && IsFirstHighest(s.threads, waiters, k)
      && s1 == s.(threads := s.threads[w := s.threads[w].(status := Ready)], ready := s.ready + [w],
                  semas := s.semas[i := Sema(s.semas[i].value + 1, waiters[..k] + waiters[k + 1..])])
  {
    var k, waiters := Picked(s, i), s.semas[i].waiters;
    assert Raised(Wake(s, i), i).semas == s.semas[i := Sema(s.semas[i].value + 1, waiters[..k] + waiters[k + 1..])];
  }

  lemma WokenGoesOn(s: State, i: nat, k: nat, s1: State, s': State)
    requires s.current < |s.threads| && i < |s.semas| && InTable(s.threads, s.semas[i].waiters)
    requires k < |s.semas[i].waiters| && IsFirstHighest(s.threads, s.semas[i].waiters, k)
    requires var waiters := s.semas[i].waiters;
      var w := waiters[k];
      && s1 == s.(threads := s.threads[w := s.threads[w].(status := Ready)], ready := s.ready + [w],
                  semas := s.semas[i := Sema(s.semas[i].value + 1, waiters[..k] + waiters[k + 1..])])
      && if s.threads[w].priority > Current(s).priority then GivesWay(s1, s1.threads, s1.ready, s') && SemasKept(s1, s')
         else s' == s1
    ensures UpTo(s, i, s')
  {
    var w := s.semas[i].waiters[k];
    if s.threads[w].priority > Current(s).priority {
      GivesWaySame(s1, s, s1.threads, s1.ready, s');
    }
    assert UpWakes(s, i, k, s');
  }

  lemma GivesWaySame(s1: State, s: State, threads: seq<Thread>, ready: seq<nat>, s': State)
    requires s1.current == s.current < |threads| && s1.idle == s.idle && GivesWay(s1, threads, ready, s')
    ensures GivesWay(s, threads, ready, s')
  {
  }

  /** A new thread has the priority asked for and queues last; the creator gives way to a higher one. */
  ghost predicate SpawnTo(s: State, priority: int, s': State)
    requires s.current < |s.threads|
  {
    var threads, ready := s.threads + [Thread(Ready, priority, 0, Normal, 0)], s.ready + [|s.threads|];
    && SemasKept(s, s')
    && if priority > Current(s).priority then GivesWay(s, threads, ready, s') else GoesOn(s, threads, ready, s')
  }

  lemma SpawnIs(s: State, priority: int)
    requires Inv(s)
    ensures SpawnTo(s, priority, Create(s, priority))
  {
    AddedKeepsInv(s, priority);
    YieldGivesWay(Added(s, priority));
  }

  /** A thread that asks for a priority gets it, but for a lower one while it holds a lock, and gives way exactly if a
      thread that has not exited then has a higher one, or if it has less than -1. */
  ghost predicate SetTo(s: State, priority: int, holdsLock: bool, s': State)
    requires s.current < |s.threads|
  {
    var granted := if holdsLock && priority < Current(s).priority then Current(s).priority else priority;
    var threads := s.threads[s.current := Current(s).(priority := granted)];
    && SemasKept(s, s')
    && if granted < -1 || exists t :: 0 <= t < |threads| && !threads[t].status.Dying? && threads[t].priority > granted
       then GivesWay(s, threads, s.ready, s') else GoesOn(s, threads, s.ready, s')
  }

  lemma {:induction false} MaxPriorityAttained(threads: seq<Thread>, n: nat)
    requires n <= |threads|
    ensures MaxPriority(threads, n) >= -1
    ensures MaxPriority(threads, n) > -1 ==>
      exists t :: 0 <= t < n && !threads[t].status.Dying? && threads[t].priority == MaxPriority(threads, n)
  {
    if n > 0 {
      MaxPriorityAttained(threads, n - 1);
    }
  }

  lemma HigherExistsIff(threads: seq<Thread>, p: int)
    ensures p < MaxPriority(threads, |threads|) <==>
      p < -1 || exists t :: 0 <= t < |threads| && !threads[t].status.Dying? && threads[t].priority > p
  {
    MaxPriorityAttained(threads, |threads|);
    forall t | 0 <= t < |threads| && !threads[t].status.Dying?
      ensures threads[t].priority <= MaxPriority(threads, |threads|)
    {
      MaxPriorityIs(threads, |threads|, t);
    }
  }

  lemma SetIs(s: State, priority: int, holdsLock: bool)
    requires Inv(s)
    ensures SetTo(s, priority, holdsLock, SetPriority(s, priority, holdsLock))
  {
    var granted := Granted(Current(s), priority, holdsLock);
    var s1 := Reprioritised(s, s.current, granted);
    ReprioritisedKeepsInv(s, s.current, granted);
    YieldGivesWay(s1);
    GivesWaySame(s1, s, s1.threads, s.ready, Yield(s1));
    SetTurns(s, priority, holdsLock, s1, Yield(s1), SetPriority(s, priority, holdsLock));
  }

  lemma SetTurns(s: State, priority: int, holdsLock: bool, s1: State, yielded: State, s': State)
    requires s.current < |s.threads|
    requires var granted := Granted(Current(s), priority, holdsLock);
      && s1 == Reprioritised(s, s.current, granted)
      && GivesWay(s, s1.threads, s.ready, yielded) && SemasKept(s1, yielded)
      && s' == if granted < MaxPriority(s1.threads, |s1.threads|) then yielded else s1
    ensures SetTo(s, priority, holdsLock, s')
  {
    HigherExistsIff(s1.threads, Granted(Current(s), priority, holdsLock));
  }

  /** A tick takes one from every sleeper's time and queues those that have none left, in the order of the list of all
      threads. The running thread gives way at its fourth tick. */
  ghost predicate TickTo(s: State, s': State, woken: seq<nat>)
    requires s.current < |s.threads|
  {
    && SemasKept(s, s') && s'.ticks == s.ticks + 1
    && Ascending(woken)
    && (forall t: nat :: t in woken <==> t < |s.threads| && s.threads[t].status.Blocked? && s.threads[t].remain == 1)
    && exists threads :: CountedDown(s, threads) && TickTurns(s, threads, s.ready + woken, s')
  }

  ghost predicate TickTurns(s: State, threads: seq<Thread>, ready: seq<nat>, s': State)
    requires s.current < |threads|
  {
    if s.slice < 3 then GoesOn(s.(slice := s.slice + 1), threads, ready, s') else GivesWay(s, threads, ready, s')
  }

  predicate CountedDown(s: State, threads: seq<Thread>) {
    && |threads| == |s.threads|
    && forall t :: 0 <= t < |threads| ==>
         threads[t] == if s.threads[t].status.Blocked? && s.threads[t].remain > 0
           then s.threads[t].(remain := s.threads[t].remain - 1,
                              status := if s.threads[t].remain == 1 then Ready else Blocked)
           else s.threads[t]
  }

  predicate Ascending(list: seq<nat>) {
    forall i, j :: 0 <= i < j < |list| ==> list[i] < list[j]
  }

  lemma {:induction false} WokenInOrder(threads: seq<Thread>, n: nat)
    requires n <= |threads|
    ensures Ascending(Woken(threads, n))
  {
    if n > 0 {
      WokenInOrder(threads, n - 1);
      var w := Woken(threads, n - 1);
      forall i | 0 <= i < |w| ensures w[i] < n - 1 {
        assert w[i] in w;
      }
    }
  }

  lemma TickIs(s: State)
    requires Inv(s)
    ensures TickTo(s, Tick(s), Woken(s.threads, |s.threads|))
  {
    TickTurnsIs(s);
    WokenInOrder(s.threads, |s.threads|);
    assert CountedDown(s, Ticked(s).threads);
  }

  lemma TickTurnsIs(s: State)
    requires Inv(s)
    ensures TickTurns(s, Ticked(s).threads, s.ready + Woken(s.threads, |s.threads|), Tick(s))
    ensures SemasKept(s, Tick(s))
  {
    TickedKeepsInv(s);
    YieldGivesWay(Ticked(s));
  }

  /** The running thread leaves the processor as `th`, and no one takes its place but from the ready list. */
  ghost predicate LeavesTo(s: State, th: Thread, s': State)
    requires s.current < |s.threads|
  {
    SemasKept(s, s') && Passes(s.threads[s.current := th], s.ready, s.idle, s')
  }

  lemma LeaveIs(s: State, th: Thread)
    requires Inv(s) && !th.status.Running? && !th.status.Ready? && th.doing.Normal?
    requires ThreadOk(th, s.current == s.idle, |s.semas|, s.ticks)
    ensures InTable(Leave(s, th).threads, Leave(s, th).ready) && LeavesTo(s, th, Schedule(Leave(s, th)))
  {
    LeaveKeepsCore(s, th);
    SchedulePasses(Leave(s, th));
  }

  /** What each event may come to, as a relation between the states before and after it. */
  ghost predicate ComesTo(s: State, e: Event, s': State)
    requires Inv(s) && Legal(s, e)
  {
    && s'.ticks == s.ticks + (if e.TimerTick? then 1 else 0)
    && match e
       case Down(i) => DownTo(s, i, s')
       case Up(i) => InTable(s.threads, s.semas[i].waiters) && UpTo(s, i, s')
       case Init(v) => s' == s.(semas := s.semas + [Sema(v, [])])
       case Sleep(n) =>
         if n <= 0 then s' == s else LeavesTo(s, Current(s).(status := Blocked, remain := n, until := s.ticks + n), s')
       case Spawn(p) => SpawnTo(s, p, s')
       case GiveWay => SemasKept(s, s') && GivesWay(s, s.threads, s.ready, s')
       case Finish => LeavesTo(s, Current(s).(status := Dying), s')
       case Idle => LeavesTo(s, Current(s).(status := Blocked), s')
       case Set(p, holdsLock) => SetTo(s, p, holdsLock, s')
       case Donate(t, p) => s' == s.(threads := s.threads[t := s.threads[t].(priority := p)])
       case TimerTick => exists woken :: TickTo(s, s', woken)
  }

  /** Every event comes to just that, whoever is chosen being the one who has queued longest of those with the highest
      priority. */
  lemma NextComesTo(s: State, e: Event)
    requires Inv(s) && Legal(s, e)
    ensures ComesTo(s, e, Next(s, e))
  {
    TicksGrow(s, e);
    match e {
      case Down(i) => DownIs(s, i);
      case Up(i) => UpIs(s, i);
      case Init(v) =>
      case Sleep(n) =>
        if n > 0 {
          LeaveIs(s, Asleep(s, n));
        }
      case Spawn(p) => SpawnIs(s, p);
      case GiveWay => YieldGivesWay(s);
      case Finish => LeaveIs(s, Current(s).(status := Dying));
      case Idle => LeaveIs(s, Current(s).(status := Blocked));
      case Set(p, holdsLock) => SetIs(s, p, holdsLock);
      case Donate(t, p) =>
      case TimerTick => TickIs(s);
    }
  }

  /** So in every state with waiters one of them leaves the wait list, nobody there has a higher priority, and everybody
      queued before it has a lower one. It is awake then, and if it has a higher priority than the caller, the caller no
      longer runs. */
  lemma UpWakesFirstHighest(s: State, i: nat)
    requires Inv(s) && Legal(s, Up(i)) && s.semas[i].waiters != []
    ensures var waiters, s' := s.semas[i].waiters, Next(s, Up(i));
      && InTable(s.threads, waiters) && |s'.semas| == |s.semas|
      && exists k :: 0 <= k < |waiters| && LeavesFirst(s, waiters, k, s', s'.semas[i].waiters)
  {
    UpIs(s, i);
    var waiters, s' := s.semas[i].waiters, Next(s, Up(i));
    var k :| 0 <= k < |waiters| && UpWakes(s, i, k, s');
    WokenRuns(s, i, k, s');
    assert LeavesFirst(s, waiters, k, s', s'.semas[i].waiters);
  }

  predicate LeavesFirst(s: State, waiters: seq<nat>, k: nat, s': State, rest: seq<nat>)
    requires k < |waiters| && InTable(s.threads, waiters) && s.current < |s.threads|
  {
    && rest == waiters[..k] + waiters[k + 1..] && IsAwake(s', waiters[k])
    && (forall j :: 0 <= j < |waiters| ==> s.threads[waiters[j]].priority <= s.threads[waiters[k]].priority)
    && (forall j :: 0 <= j < k ==> s.threads[waiters[j]].priority < s.threads[waiters[k]].priority)
    && (s.threads[waiters[k]].priority > s.threads[s.current].priority ==> s'.current != s.current)
  }

  lemma WokenRuns(s: State, i: nat, k: nat, s': State)
    requires Inv(s) && i < |s.semas| && InTable(s.threads, s.semas[i].waiters) && k < |s.semas[i].waiters|
    requires UpWakes(s, i, k, s')
    ensures var w := s.semas[i].waiters[k];
      IsAwake(s', w) && (s.threads[w].priority > Current(s).priority ==> s'.current != s.current)
  {
    var w := s.semas[i].waiters[k];
    assert WaitsIfBlocked(s, i, w);
    assert ThreadOk(s.threads[w], w == s.idle, |s.semas|, s.ticks);
    if s.threads[w].priority > Current(s).priority {
      ChosenIsHighest(s, w, s');
    }
  }

  lemma ChosenIsHighest(s: State, w: nat, s': State)
    requires Inv(s) && w < |s.threads| && w != s.current && s.threads[w].priority > Current(s).priority
    requires GivesWay(s, s.threads[w := s.threads[w].(status := Ready)], s.ready + [w], s') && s.threads[w].remain == 0
    ensures s'.current != s.current && IsAwake(s', w)
  {
    var threads := s.threads[w := s.threads[w].(status := Ready)][s.current := Current(s).(status := Ready)];
    var queue := if s.current == s.idle then s.ready + [w] else s.ready + [w] + [s.current];
    assert queue[|s.ready|] == w;
    var k :| 0 <= k < |queue| && Picks(threads, queue, k, s'.current, s'.ready);
    assert threads[w].priority <= threads[queue[k]].priority;
  }

  // ---------------------------------------------------------------- the scheduler's code

  class Kernel {
    var threads: seq<Thread>
    var ready: seq<nat>
    var current: nat
    const idle: nat
    var semas: seq<Sema>
    var ticks: nat
    var slice: nat

    function Abstract(): State
      reads this
    {
      State(threads, ready, current, idle, semas, ticks, slice)
    }

    constructor (s: State)
      requires Inv(s)
      ensures Abstract() == s
    {
      threads, ready, current, idle := s.threads, s.ready, s.current, s.idle;
      semas, ticks, slice := s.semas, s.ticks, s.slice;
    }

    method ListMax(list: seq<nat>) returns (k: nat)
      requires list != [] && InTable(threads, list)
      ensures k == FirstMax(threads, list)
    {
      k := 0;
      assert list[..1][0] == list[0];
      for i := 1 to |list|
        invariant k < i && InTable(threads, list[..i]) && k == FirstMax(threads, list[..i])
      {
        assert list[..i + 1][..i] == list[..i] && InTable(threads, list[..i + 1]);
        if threads[list[k]].priority < threads[list[i]].priority {
          k := i;
        }
      }
      assert list[..|list|] == list;
    }

    method SetStatus(t: nat, status: Status)
      requires t < |threads|
      modifies this`threads
      ensures Abstract() == WithStatus(old(Abstract()), t, status)
    {
      threads := threads[t := threads[t].(status := status)];
    }

    method Dispatch()
      requires Core(Abstract()) && InTable(threads, ready)
      modifies this
      ensures Abstract() == Schedule(old(Abstract()))
    {
      var next := idle;
      if ready != [] {
        var k := ListMax(ready);
        next := ready[k];
        ready := Without(ready, k);
      }
      SetStatus(next, Running);
      current, slice := next, 0;
    }

    method ThreadUnblock(t: nat)
      requires t < |threads|
      modifies this
      ensures Abstract() == Unblock(old(Abstract()), t)
    {
      ready := ready + [t];
      SetStatus(t, Ready);
    }

    method ThreadYield()
      requires Inv(Abstract())
      modifies this
      ensures Abstract() == Yield(old(Abstract()))
    {
      ghost var s := Abstract();
      RequeueKeepsCore(s);
      ReadyInTable(Requeue(s));
      if current != idle {
        ready := ready + [current];
      }
      SetStatus(current, Ready);
      Dispatch();
    }

    /** From the test in sema_down's loop to the next block or to the end. */
    method SemaDownPass(i: nat)
      requires Inv(Abstract()) && i < |semas| && current != idle
      modifies this
      ensures Abstract() == SemaDown(old(Abstract()), i)
    {
      ghost var s := Abstract();
      var sema := semas[i];
      if sema.value == 0 {
        WaitKeepsCore(s, i);
        ReadyInTable(WaitOn(s, i));
        semas := semas[i := sema.(waiters := sema.waiters + [current])];
        threads := threads[current := threads[current].(status := Blocked, doing := Downing(i))];
        Dispatch();
      } else {
        semas := semas[i := sema.(value := sema.value - 1)];
        threads := threads[current := threads[current].(doing := Normal)];
      }
    }

    /** Takes the highest-priority waiter off the wait list and unblocks it. */
    method WakeOne(i: nat) returns (removed: nat)
      requires Inv(Abstract()) && i < |semas| && semas[i].waiters != []
      modifies this
      ensures Abstract() == Wake(old(Abstract()), i) && removed == old(semas[i].waiters[Picked(Abstract(), i)])
    {
      ghost var s := Abstract();
      WaitersInTable(s, i);
      var k := ListMax(semas[i].waiters);
      removed := semas[i].waiters[k];
      semas := semas[i := semas[i].(waiters := Without(semas[i].waiters, k))];
      ThreadUnblock(removed);
    }

    method Raise(i: nat)
      requires i < |semas|
      modifies this`semas
      ensures Abstract() == Raised(old(Abstract()), i)
    {
      semas := semas[i := semas[i].(value := semas[i].value + 1)];
    }

    method SemaPost(i: nat)
      requires Inv(Abstract()) && i < |semas|
      modifies this
      ensures Abstract() == SemaUp(old(Abstract()), i)
    {
      if semas[i].waiters == [] {
        RaisedKeepsInv(Abstract(), i);
        Raise(i);
        ThreadYield();
      } else {
        ghost var s := Abstract();
        RaisedAfterWake(s, i);
        var removed := WakeOne(i);
        Raise(i);
        if threads[removed].priority > threads[current].priority {
          ThreadYield();
        }
      }
    }

    method TimerSleepFor(n: int)
      requires Inv(Abstract()) && current != idle && threads[current].doing.Normal?
      modifies this
      ensures Abstract() == TimerSleep(old(Abstract()), n)
    {
      if n > 0 {
        ghost var s := Abstract();
        LeaveKeepsCore(s, Asleep(s, n));
        ReadyInTable(Leave(s, Asleep(s, n)));
        threads := threads[current := threads[current].(status := Blocked, remain := n, until := ticks + n)];
        assert Abstract() == Leave(s, Asleep(s, n));
        Dispatch();
      }
    }

    method ThreadCreate(priority: int)
      requires Inv(Abstract())
      modifies this
      ensures Abstract() == Create(old(Abstract()), priority)
    {
      AddedKeepsInv(Abstract(), priority);
      threads := threads + [Thread(Blocked, priority, 0, Normal, 0)];
      ready := ready + [|threads| - 1];
      threads := threads[|threads| - 1 := threads[|threads| - 1].(status := Ready)];
      assert Abstract() == Added(old(Abstract()), priority);
      if threads[current].priority < priority {
        ThreadYield();
      }
    }

    method AllThreadsMaxPriority() returns (res: int)
      ensures res == MaxPriority(threads, |threads|)
    {
      res := -1;
      for t := 0 to |threads|
        invariant res == MaxPriority(threads, t)
      {
        if !threads[t].status.Dying? && threads[t].priority > res {
          res := threads[t].priority;
        }
      }
    }

    method ThreadSetPriority(priority: int, holdsLock: bool)
      requires Inv(Abstract())
      modifies this
      ensures Abstract() == SetPriority(old(Abstract()), priority, holdsLock)
    {
      ReprioritisedKeepsInv(Abstract(), current, Granted(threads[current], priority, holdsLock));
      if !holdsLock || priority > threads[current].priority {
        threads := threads[current := threads[current].(priority := priority)];
      }
      assert Abstract() == Reprioritised(old(Abstract()), current, Granted(old(threads[current]), priority, holdsLock));
      var top := AllThreadsMaxPriority();
      if threads[current].priority < top {
        ThreadYield();
      }
    }

    method ThreadExit()
      requires Inv(Abstract()) && current != idle && threads[current].doing.Normal?
      modifies this
      ensures Abstract() == Exit(old(Abstract()))
    {
      ghost var s := Abstract();
      LeaveKeepsCore(s, Current(s).(status := Dying));
      ReadyInTable(Leave(s, Current(s).(status := Dying)));
      SetStatus(current, Dying);
      Dispatch();
    }

    method CheckRemain(t: nat)
      requires t < |threads|
      modifies this`threads, this`ready
      ensures threads == old(threads)[t := Checked(old(threads)[t])]
      ensures ready == old(ready) + if Wakes(old(threads)[t]) then [t] else []
    {
      var th := threads[t];
      if th.status.Blocked? && th.remain > 0 {
        threads := threads[t := th.(remain := th.remain - 1)];
        if threads[t].remain == 0 {
          ready := ready + [t];
          threads := threads[t := threads[t].(status := Ready)];
        }
      }
    }

    /** check_remain on every thread, in the order of the list of all threads. */
    method CheckAll()
      modifies this`threads, this`ready
      ensures |threads| == |old(threads)| && ready == old(ready) + Woken(old(threads), |old(threads)|)
      ensures forall t :: 0 <= t < |threads| ==> threads[t] == Checked(old(threads)[t])
    {
      ghost var was, start := threads, ready;
      ghost var woken: seq<nat> := [];
      for t := 0 to |threads|
        invariant |threads| == |was| && ready == start + woken && woken == Woken(was, t)
        invariant forall u :: 0 <= u < t ==> threads[u] == Checked(was[u])
        invariant forall u :: t <= u < |was| ==> threads[u] == was[u]
      {
        CheckRemain(t);
        ghost var more: seq<nat> := if Wakes(was[t]) then [t] else [];
        Assoc(start, woken, more);
        woken := woken + more;
      }
    }

    method TimerInterrupt()
      requires Inv(Abstract())
      modifies this
      ensures Abstract() == Tick(old(Abstract()))
    {
      ghost var s := Abstract();
      TickedKeepsInv(s);
      ticks := ticks + 1;
      slice := slice + 1;
      var yieldOnReturn := slice >= TIME_SLICE;
      CheckAll();
      assert Abstract() == Ticked(s);
      if yieldOnReturn {
        ThreadYield();
      }
    }
  }
}
