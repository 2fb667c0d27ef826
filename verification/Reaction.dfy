/** The water-making monitor: any number of threads call `reaction_h` and `reaction_o`, one statement at a time.
    Mesa semantics: a signalled thread must win the lock again before it goes on. */
module Reaction {
  import opened Common

  type Tid = nat

  /** The next statement of a call. `...Asleep` waits for a signal, `...Woken` waits for the lock. */
  datatype Pc =
    | HEnter | HCount | HNotify | HSleep | HAsleep | HWoken | HLeave | HDone
    | OEnter | OTest | OAsleep | OWoken | OTake | OWater | OFirst | OSecond | OLeave | ODone

  /** `hCondReady` holds the oxygens waiting for hydrogen, `oCondReady` the hydrogens waiting for oxygen. */
  datatype State = State(hNum: int, lock: Option<Tid>, hCondReady: set<Tid>, oCondReady: set<Tid>,
                         pc: seq<Pc>, water: nat)

  const INITIAL: State := State(0, None, {}, {}, [], 0)

  // ---------------------------------------------------------------- transitions

  predicate IsHydrogen(p: Pc) {
    p.HEnter? || p.HCount? || p.HNotify? || p.HSleep? || p.HAsleep? || p.HWoken? || p.HLeave? || p.HDone?
  }

  /** About to acquire the lock, for the first time or on the way out of `cond_wait`. */
  predicate WantsLock(p: Pc) { p.HEnter? || p.HWoken? || p.OEnter? || p.OWoken? }

  /** Between acquiring the lock and releasing it. */
  predicate InMonitor(p: Pc) {
    || p.HCount? || p.HNotify? || p.HSleep? || p.HLeave?
    || p.OTest? || p.OTake? || p.OWater? || p.OFirst? || p.OSecond? || p.OLeave?
  }

  /** Where the statement at `p` leads. */
  function NextPc(p: Pc, hNum: int): Pc {
    match p
    case HEnter => HCount
    case HCount => HNotify
    case HNotify => HSleep
    case HSleep => HAsleep
    case HWoken => HLeave
    case HLeave => HDone
    case OEnter => OTest
    case OTest => if hNum < 2 then OAsleep else OTake
    case OWoken => OTest
    case OTake => OWater
    case OWater => OFirst
    case OFirst => OSecond
    case OSecond => OLeave
    case OLeave => ODone
    case _ => p
  }

  /** The waiters among whom the statement at `p` picks one to wake. */
  function Signalled(s: State, p: Pc): set<Tid> {
    match p
    case HNotify => if s.hNum >= 2 then s.hCondReady else {}
    case OFirst => s.oCondReady
    case OSecond => s.oCondReady
    case _ => {}
  }

  /** Thread `t` can run its next statement; `w` is the waiter it wakes, if it wakes one. */
  predicate Enabled(s: State, t: Tid, w: Tid) {
    && t < |s.pc|
    && (WantsLock(s.pc[t]) || InMonitor(s.pc[t]))
    && (WantsLock(s.pc[t]) ==> s.lock == None)
    && (Signalled(s, s.pc[t]) != {} ==> w in Signalled(s, s.pc[t]) && w < |s.pc|)
  }

  /** Thread `t` runs one statement. */
  function Step(s: State, t: Tid, w: Tid): State
    requires Enabled(s, t, w)
  {
    var p := s.pc[t];
    var next := NextPc(p, s.hNum);
    var wake := Signalled(s, p) != {};
    State(
      hNum := if p == HCount then s.hNum + 1 else if p == OTake then s.hNum - 2 else s.hNum,
      lock := if InMonitor(next) then Some(t) else None,
      hCondReady := if next == OAsleep then s.hCondReady + {t}
                    else if wake && p == HNotify then s.hCondReady - {w} else s.hCondReady,
      oCondReady := if next == HAsleep then s.oCondReady + {t}
                    else if wake && p != HNotify then s.oCondReady - {w} else s.oCondReady,
      pc := (if wake then s.pc[w := if p == HNotify then OWoken else HWoken] else s.pc)[t := next],
      water := if p == OWater then s.water + 1 else s.water)
  }

  /** A new thread calls one of the two procedures. */
  function Arrive(s: State, hydrogen: bool): State {
    s.(pc := s.pc + [if hydrogen then HEnter else OEnter])
  }

  /** A wait may also end by itself: sleeper `t` goes for the lock though nobody has signalled. */
  function SpuriousWakeup(s: State, t: Tid): State
    requires t < |s.pc| && (s.pc[t] == HAsleep || s.pc[t] == OAsleep)
  {
    s.(hCondReady := s.hCondReady - {t}, oCondReady := s.oCondReady - {t},
       pc := s.pc[t := if s.pc[t] == HAsleep then HWoken else OWoken])
  }

  ghost predicate OxygenWakesByItself(s: State, s': State) {
    exists t: Tid :: t < |s.pc| && s.pc[t] == OAsleep && s' == SpuriousWakeup(s, t)
  }

  /** The waits of hydrogens end by signals only: `reaction_h` does not test anything again, see `HydrogenReturnsEarly`. */
  ghost predicate Next(s: State, s': State) {
    || s' == Arrive(s, true)
    || s' == Arrive(s, false)
    || OxygenWakesByItself(s, s')
    || OneStep(s, s')
  }

  ghost predicate Run(run: seq<State>) {
    && |run| > 0 && run[0] == INITIAL
    && forall i :: 0 < i < |run| ==> Next(run[i - 1], run[i])
  }

  // ---------------------------------------------------------------- the monitor itself

  /** The shared fields, and the statements that change them in place. */
  class Monitor {
    var hNum: int
    var lock: Option<Tid>
    var hCondReady: set<Tid>
    var oCondReady: set<Tid>
    var pc: seq<Pc>
    var water: nat

    ghost function Abstract(): State
      reads this
    {
      State(hNum, lock, hCondReady, oCondReady, pc, water)
    }

    constructor ()
      ensures Abstract() == INITIAL
    {
      hNum, lock, hCondReady, oCondReady, pc, water := 0, None, {}, {}, [], 0;
    }

    method Call(hydrogen: bool)
      modifies this
      ensures Abstract() == Arrive(old(Abstract()), hydrogen)
    {
      pc := pc + [if hydrogen then HEnter else OEnter];
    }

    /** `cond_signal` on the oxygens' condition: wakes `w` if anyone waits. */
    method SignalOxygen(w: Tid)
      requires hCondReady != {} ==> w in hCondReady && w < |pc|
      modifies this`hCondReady, this`pc
      ensures hCondReady == old(hCondReady) - (if old(hCondReady) == {} then {} else {w})
      ensures pc == if old(hCondReady) == {} then old(pc) else old(pc)[w := OWoken]
    {
      if hCondReady != {} {
        hCondReady := hCondReady - {w};
        pc := pc[w := OWoken];
      }
    }

    /** `cond_signal` on the hydrogens' condition. */
    method SignalHydrogen(w: Tid)
      requires oCondReady != {} ==> w in oCondReady && w < |pc|
      modifies this`oCondReady, this`pc
      ensures oCondReady == old(oCondReady) - (if old(oCondReady) == {} then {} else {w})
      ensures pc == if old(oCondReady) == {} then old(pc) else old(pc)[w := HWoken]
    {
      if oCondReady != {} {
        oCondReady := oCondReady - {w};
        pc := pc[w := HWoken];
      }
    }

    /** A wait that ends though nobody has signalled. */
    method EndWait(t: Tid)
      requires t < |pc| && (pc[t] == HAsleep || pc[t] == OAsleep)
      modifies this`hCondReady, this`oCondReady, this`pc
      ensures Abstract() == SpuriousWakeup(old(Abstract()), t)
    {
      hCondReady, oCondReady := hCondReady - {t}, oCondReady - {t};
      pc := pc[t := if pc[t] == HAsleep then HWoken else OWoken];
    }

    /** One statement of `reaction_h` by thread `t`. */
    method ReactionH(t: Tid, w: Tid)
      requires Enabled(Abstract(), t, w) && IsHydrogen(pc[t])
      requires Exclusion(Abstract())
      modifies this
      ensures Abstract() == Step(old(Abstract()), t, w)
    {
      match pc[t] {
        case HEnter => lock := Some(t); pc := pc[t := HCount];
        case HCount => hNum := hNum + 1; pc := pc[t := HNotify];
        case HNotify =>
          if hNum >= 2 {
            SignalOxygen(w);
          }
          pc := pc[t := HSleep];
        case HSleep => oCondReady := oCondReady + {t}; lock := None; pc := pc[t := HAsleep];
        case HWoken => lock := Some(t); pc := pc[t := HLeave];
        case HLeave => lock := None; pc := pc[t := HDone];
      }
    }

    /** One statement of `reaction_o` by thread `t`. */
    method ReactionO(t: Tid, w: Tid)
      requires Enabled(Abstract(), t, w) && !IsHydrogen(pc[t])
      requires Exclusion(Abstract())
      modifies this
      ensures Abstract() == Step(old(Abstract()), t, w)
    {
      match pc[t] {
        case OEnter => lock := Some(t); pc := pc[t := OTest];
        case OTest =>
          if hNum < 2 {
            hCondReady := hCondReady + {t};
            lock := None;
            pc := pc[t := OAsleep];
          } else {
            pc := pc[t := OTake];
          }
        case OWoken => lock := Some(t); pc := pc[t := OTest];
        case OTake => hNum := hNum - 2; pc := pc[t := OWater];
        case OWater => water := water + 1; pc := pc[t := OFirst];
        case OFirst => SignalHydrogen(w); pc := pc[t := OSecond];
        case OSecond => SignalHydrogen(w); pc := pc[t := OLeave];
        case OLeave => lock := None; pc := pc[t := ODone];
      }
    }
  }

  // ---------------------------------------------------------------- counting threads

  datatype Tally =
    | HSleepers | OSleepers | OSignalled | HReleased | OBonded | OWatered
    | Hydrogens | Oxygens | HReturned | OReturned | Work

  /** What a thread at `p` adds to each count. `Work` bounds the statements it can still cause. */
  function Weight(k: Tally, p: Pc): nat {
    match k
    case HSleepers => if p == HAsleep then 1 else 0
    case OSleepers => if p == OAsleep then 1 else 0
    case OSignalled => if p == OWoken then 1 else 0
    case HReleased => if (p.HWoken? || p.HLeave? || p.HDone?) then 1 else 0
    case OBonded => if (p.OWater? || p.OFirst? || p.OSecond? || p.OLeave? || p.ODone?) then 1 else 0
    case OWatered => if (p.OFirst? || p.OSecond? || p.OLeave? || p.ODone?) then 1 else 0
    case Hydrogens => if IsHydrogen(p) then 1 else 0
    case Oxygens => if IsHydrogen(p) then 0 else 1
    case HReturned => if p == HDone then 1 else 0
    case OReturned => if p == ODone then 1 else 0
    case Work => (
      match p
      case HEnter => 9 case HCount => 8 case HNotify => 7 case HSleep => 4 case HAsleep => 3
      case HWoken => 2 case HLeave => 1 case HDone => 0
      case OEnter => 9 case OTest => 8 case OAsleep => 7 case OWoken => 9 case OTake => 7
      case OWater => 6 case OFirst => 5 case OSecond => 4 case OLeave => 3 case ODone => 0)
  }

  function Sum(pc: seq<Pc>, k: Tally): nat {
    if pc == [] then 0 else Sum(pc[..|pc| - 1], k) + Weight(k, pc[|pc| - 1])
  }

  lemma {:induction false} SumUpdate(pc: seq<Pc>, t: Tid, p: Pc, k: Tally)
    requires t < |pc|
    ensures Sum(pc[t := p], k) == Sum(pc, k) - Weight(k, pc[t]) + Weight(k, p)
  {
    var n := |pc| - 1;
    if t < n {
      SumUpdate(pc[..n], t, p, k);
      assert pc[t := p][..n] == pc[..n][t := p];
    } else {
      assert pc[t := p][..n] == pc[..n];
    }
  }

  lemma SumAppend(pc: seq<Pc>, p: Pc)
    ensures forall k :: Sum(pc + [p], k) == Sum(pc, k) + Weight(k, p)
  {
    assert (pc + [p])[..|pc|] == pc;
  }

  // ---------------------------------------------------------------- the invariant

  /** What the lock holder has already done that the sleepers' count does not show yet. */
  function HydrogensAhead(p: Option<Pc>): int {
    match p
    case Some(HNotify) => 1
    case Some(HSleep) => 1
    case Some(OWater) => -2
    case Some(OFirst) => -2
    case Some(OSecond) => -1
    case _ => 0
  }

  /** Wake-ups the lock holder still owes to hydrogens. */
  function SignalsOwed(p: Option<Pc>): nat {
    match p
    case Some(OWater) => 2
    case Some(OFirst) => 2
    case Some(OSecond) => 1
    case _ => 0
  }

  /** Where the lock holder is. */
  function HolderPc(s: State): Option<Pc> {
    if s.lock.Some? && s.lock.value < |s.pc| then Some(s.pc[s.lock.value]) else None
  }

  /** The lock protects the monitor: exactly its holder is between acquire and release. */
  ghost predicate Exclusion(s: State) {
    && (s.lock.Some? ==> s.lock.value < |s.pc| && InMonitor(s.pc[s.lock.value]))
    && forall t :: 0 <= t < |s.pc| && InMonitor(s.pc[t]) ==> s.lock == Some(t)
  }

  /** The condition variables' lists hold exactly the sleeping threads. */
  ghost predicate Queues(s: State) {
    && (forall t :: t in s.oCondReady ==> t < |s.pc| && s.pc[t] == HAsleep)
    && (forall t :: t in s.hCondReady ==> t < |s.pc| && s.pc[t] == OAsleep)
  }

  ghost predicate QueueSizes(s: State) {
    && |s.oCondReady| == Sum(s.pc, HSleepers)
    && |s.hCondReady| == Sum(s.pc, OSleepers)
  }

  /** How many oxygens must be on their way: one for every two hydrogens, give or take what the lock holder
      is about to do. */
  function Needed(p: Option<Pc>, hNum: int): int {
    match p
    case Some(HNotify) => (hNum - 1) / 2
    case Some(OTest) => hNum / 2 - 1
    case Some(OTake) => hNum / 2 - 1
    case _ => hNum / 2
  }

  ghost predicate NoLostWakeup(s: State) {
    s.hCondReady != {} ==> Sum(s.pc, OSignalled) >= Needed(HolderPc(s), s.hNum)
  }

  ghost predicate HydrogenCount(s: State) {
    s.hNum == |s.oCondReady| + HydrogensAhead(HolderPc(s)) >= 0
  }

  ghost predicate TestPassed(s: State) {
    HolderPc(s) == Some(OTake) ==> s.hNum >= 2
  }

  ghost predicate SignalCount(s: State) {
    Sum(s.pc, HReleased) + SignalsOwed(HolderPc(s)) == 2 * Sum(s.pc, OBonded)
  }

  ghost predicate WaterCount(s: State) {
    s.water == Sum(s.pc, OWatered)
  }

  ghost predicate Inv(s: State) {
    && Exclusion(s) && Queues(s) && QueueSizes(s) && NoLostWakeup(s)
    && HydrogenCount(s) && TestPassed(s) && SignalCount(s) && WaterCount(s)
  }

  lemma ArriveKeepsInv(s: State, hydrogen: bool)
    requires Inv(s)
    ensures Inv(Arrive(s, hydrogen))
  {
    SumAppend(s.pc, if hydrogen then HEnter else OEnter);
  }

  /** What waking a thread adds to each count: a signal from a hydrogen wakes an oxygen, and conversely. */
  function WakeGain(k: Tally, p: Pc): int {
    if p == HNotify then Weight(k, OWoken) - Weight(k, OAsleep) else Weight(k, HWoken) - Weight(k, HAsleep)
  }

  /** How one statement changes each count: the thread moves on, and so does the thread it wakes. */
  lemma SumStep(s: State, t: Tid, w: Tid, k: Tally)
    requires Enabled(s, t, w) && Queues(s)
    ensures var p := s.pc[t];
      Sum(Step(s, t, w).pc, k) == Sum(s.pc, k) - Weight(k, p) + Weight(k, NextPc(p, s.hNum))
                                  + if Signalled(s, p) == {} then 0 else WakeGain(k, p)
  {
    var p := s.pc[t];
    if Signalled(s, p) == {} {
      SumUpdate(s.pc, t, NextPc(p, s.hNum), k);
    } else {
      var woken := if p == HNotify then OWoken else HWoken;
      SumUpdate(s.pc, w, woken, k);
      SumUpdate(s.pc[w := woken], t, NextPc(p, s.hNum), k);
    }
  }

  lemma StepKeepsExclusion(s: State, t: Tid, w: Tid)
    requires Enabled(s, t, w) && Queues(s) && Exclusion(s)
    ensures Exclusion(Step(s, t, w))
  {
  }

  lemma StepKeepsQueues(s: State, t: Tid, w: Tid)
    requires Enabled(s, t, w) && Queues(s)
    ensures Queues(Step(s, t, w))
  {
  }

  /** The program point of the thread inside the monitor, before and after one statement. */
  lemma HolderMoves(s: State, t: Tid, w: Tid)
    requires Enabled(s, t, w) && Queues(s) && Exclusion(s)
    ensures var s' := Step(s, t, w);
      && HolderPc(s) == Inside(s.pc[t])
      && HolderPc(s') == Inside(NextPc(s.pc[t], s.hNum)) && s'.pc[t] == NextPc(s.pc[t], s.hNum)
  {
  }

  function Inside(p: Pc): Option<Pc> {
    if InMonitor(p) then Some(p) else None
  }

  /** How one statement changes the counter and the two lists. */
  lemma StepDeltas(s: State, t: Tid, w: Tid)
    requires Enabled(s, t, w) && Queues(s)
    ensures var s', p := Step(s, t, w), s.pc[t];
      var next, wake := NextPc(p, s.hNum), Signalled(s, p) != {};
      && s'.hNum == s.hNum + Counted(p)
      && |s'.oCondReady| == |s.oCondReady| + (if next == HAsleep then 1 else 0) - (if wake && p != HNotify then 1 else 0)
      && |s'.hCondReady| == |s.hCondReady| + (if next == OAsleep then 1 else 0) - (if wake && p == HNotify then 1 else 0)
  {
    OListDelta(s, t, w);
    HListDelta(s, t, w);
  }

  lemma OListDelta(s: State, t: Tid, w: Tid)
    requires Enabled(s, t, w) && Queues(s)
    ensures var p := s.pc[t];
      |Step(s, t, w).oCondReady| == |s.oCondReady| + (if NextPc(p, s.hNum) == HAsleep then 1 else 0)
        - (if Signalled(s, p) != {} && p != HNotify then 1 else 0)
  {
  }

  lemma HListDelta(s: State, t: Tid, w: Tid)
    requires Enabled(s, t, w) && Queues(s)
    ensures var p := s.pc[t];
      |Step(s, t, w).hCondReady| == |s.hCondReady| + (if NextPc(p, s.hNum) == OAsleep then 1 else 0)
        - (if Signalled(s, p) != {} && p == HNotify then 1 else 0)
  {
  }

  function Counted(p: Pc): int {
    if p == HCount then 1 else if p == OTake then -2 else 0
  }

  lemma StepKeepsQueueSizes(s: State, t: Tid, w: Tid)
    requires Enabled(s, t, w) && Queues(s) && QueueSizes(s)
    ensures QueueSizes(Step(s, t, w))
  {
    StepDeltas(s, t, w);
    SumStep(s, t, w, HSleepers);
    SumStep(s, t, w, OSleepers);
    SleepBalance(s.pc[t], s.hNum, Signalled(s, s.pc[t]) != {});
  }

  lemma SleepBalance(p: Pc, hNum: int, wake: bool)
    requires WantsLock(p) || InMonitor(p)
    requires wake ==> p == OFirst || p == OSecond || p == HNotify
    ensures var next := NextPc(p, hNum);
      && Weight(HSleepers, next) - Weight(HSleepers, p) + (if wake then WakeGain(HSleepers, p) else 0)
         == (if next == HAsleep then 1 else 0) - (if wake && p != HNotify then 1 else 0)
      && Weight(OSleepers, next) - Weight(OSleepers, p) + (if wake then WakeGain(OSleepers, p) else 0)
         == (if next == OAsleep then 1 else 0) - (if wake && p == HNotify then 1 else 0)
  {
  }

  lemma StepKeepsHydrogenCount(s: State, t: Tid, w: Tid)
    requires Enabled(s, t, w) && Inv(s)
    ensures HydrogenCount(Step(s, t, w))
  {
    HolderMoves(s, t, w);
    StepDeltas(s, t, w);
    HydrogenBalance(s.pc[t], s.hNum, Signalled(s, s.pc[t]) != {});
  }

  /** Statement by statement: the counter moves with the sleepers it stands for. */
  lemma HydrogenBalance(p: Pc, hNum: int, wake: bool)
    requires p == OFirst || p == OSecond ==> wake
    ensures var next := NextPc(p, hNum);
      WantsLock(p) || InMonitor(p) ==>
        Counted(p) == (if next == HAsleep then 1 else 0)
                      - (if wake && (p == OFirst || p == OSecond) then 1 else 0)
                      + HydrogensAhead(Inside(next)) - HydrogensAhead(Inside(p))
  {
  }

  lemma StepKeepsTestPassed(s: State, t: Tid, w: Tid)
    requires Enabled(s, t, w) && Queues(s) && Exclusion(s)
    ensures TestPassed(Step(s, t, w))
  {
    HolderMoves(s, t, w);
  }

  lemma StepKeepsSignalCount(s: State, t: Tid, w: Tid)
    requires Enabled(s, t, w) && Inv(s)
    ensures SignalCount(Step(s, t, w))
  {
    HolderMoves(s, t, w);
    SumStep(s, t, w, HReleased);
    SumStep(s, t, w, OBonded);
    SignalBalance(s.pc[t], s.hNum, Signalled(s, s.pc[t]) != {});
  }

  /** Statement by statement: taking two hydrogens owes two signals, and each signal pays one. */
  lemma SignalBalance(p: Pc, hNum: int, wake: bool)
    requires p == OFirst || p == OSecond ==> wake
    requires wake ==> p == OFirst || p == OSecond || p == HNotify
    ensures var next := NextPc(p, hNum);
      Weight(HReleased, next) - Weight(HReleased, p) + (if wake then WakeGain(HReleased, p) else 0)
      + SignalsOwed(Inside(next)) - SignalsOwed(Inside(p))
      == 2 * (Weight(OBonded, next) - Weight(OBonded, p) + if wake then WakeGain(OBonded, p) else 0)
  {
  }

  lemma StepKeepsWaterCount(s: State, t: Tid, w: Tid)
    requires Enabled(s, t, w) && Queues(s) && WaterCount(s)
    ensures WaterCount(Step(s, t, w))
  {
    SumStep(s, t, w, OWatered);
  }

  /** An oxygen asleep after the statement slept before it or has just gone to sleep. */
  lemma WhoSleepsAfter(s: State, t: Tid, w: Tid)
    requires Enabled(s, t, w)
    ensures var s', p := Step(s, t, w), s.pc[t];
      && s'.hNum == s.hNum + Counted(p)
      && (s'.hCondReady != {} && NextPc(p, s.hNum) != OAsleep ==> s.hCondReady != {})
  {
  }

  lemma CountedWhenNotifying(s: State, t: Tid)
    requires t < |s.pc| && HydrogenCount(s) && HolderPc(s) == Inside(s.pc[t])
    ensures s.hNum >= 0 && (s.pc[t] == HNotify ==> s.hNum >= 1)
  {
  }

  /** Statement by statement: a hydrogen that makes a pair sends one oxygen on its way. */
  lemma WakeupBalance(p: Pc, hNum: int, wake: bool)
    requires WantsLock(p) || InMonitor(p)
    requires p == HNotify && hNum >= 2 ==> wake
    requires hNum >= 0 && (p == HNotify ==> hNum >= 1)
    ensures var next := NextPc(p, hNum);
      next != OAsleep ==>
        Weight(OSignalled, next) - Weight(OSignalled, p) + (if wake then WakeGain(OSignalled, p) else 0)
        >= Needed(Inside(next), hNum + Counted(p)) - Needed(Inside(p), hNum)
  {
  }

  /** Enough oxygens on their way before the statement, and so after it. `asleep` says whether any oxygen sleeps,
      `sent` how many have been signalled. */
  lemma OnTheirWay(p: Pc, hNum: int, wake: bool, asleep: bool, asleep': bool, sent: int, sent': nat)
    requires WantsLock(p) || InMonitor(p)
    requires asleep && p == HNotify && hNum >= 2 ==> wake
    requires hNum >= 0 && (p == HNotify ==> hNum >= 1)
    requires asleep' && NextPc(p, hNum) != OAsleep ==> asleep
    requires sent' == sent - Weight(OSignalled, p) + Weight(OSignalled, NextPc(p, hNum))
                      + if wake then WakeGain(OSignalled, p) else 0
    requires asleep ==> sent >= Needed(Inside(p), hNum)
    ensures asleep' ==> sent' >= Needed(Inside(NextPc(p, hNum)), hNum + Counted(p))
  {
    if asleep && NextPc(p, hNum) != OAsleep {
      WakeupBalance(p, hNum, wake);
    }
  }

  lemma StepKeepsNoLostWakeup(s: State, t: Tid, w: Tid)
    requires Enabled(s, t, w) && Exclusion(s) && Queues(s) && HydrogenCount(s) && NoLostWakeup(s)
    ensures NoLostWakeup(Step(s, t, w))
  {
    var s', p, wake := Step(s, t, w), s.pc[t], Signalled(s, s.pc[t]) != {};
    assert HolderPc(s) == Inside(p) && HolderPc(s') == Inside(NextPc(p, s.hNum)) by { HolderMoves(s, t, w); }
    CountedWhenNotifying(s, t);
    WhoSleepsAfter(s, t, w);
    SumStep(s, t, w, OSignalled);
    OnTheirWay(p, s.hNum, wake, s.hCondReady != {}, s'.hCondReady != {}, Sum(s.pc, OSignalled), Sum(s'.pc, OSignalled));
  }

  lemma StepKeepsInv(s: State, t: Tid, w: Tid)
    requires Inv(s) && Enabled(s, t, w)
    ensures Inv(Step(s, t, w))
  {
    StepKeepsExclusion(s, t, w);
    StepKeepsQueues(s, t, w);
    StepKeepsQueueSizes(s, t, w);
    StepKeepsHydrogenCount(s, t, w);
    StepKeepsTestPassed(s, t, w);
    StepKeepsSignalCount(s, t, w);
    StepKeepsWaterCount(s, t, w);
    StepKeepsNoLostWakeup(s, t, w);
  }

  /** Every statement uses up work, even one that wakes a thread. */
  lemma StepUsesWork(s: State, t: Tid, w: Tid)
    requires Enabled(s, t, w) && Queues(s)
    ensures Sum(Step(s, t, w).pc, Work) < Sum(s.pc, Work)
  {
    SumStep(s, t, w, Work);
  }

  /** A list of sleepers is no longer than there are sleepers. */
  lemma {:induction false} ListFits(pc: seq<Pc>, list: set<Tid>, k: Tally)
    requires forall t :: t in list ==> t < |pc| && Weight(k, pc[t]) == 1
    ensures |list| <= Sum(pc, k)
  {
    if pc == [] {
      assert list == {};
    } else {
      var n := |pc| - 1;
      ListFits(pc[..n], list - {n}, k);
    }
  }

  /** The lists hold every sleeper. */
  lemma SleeperIsListed(s: State, t: Tid)
    requires Queues(s) && QueueSizes(s) && t < |s.pc|
    ensures s.pc[t] == HAsleep ==> t in s.oCondReady
    ensures s.pc[t] == OAsleep ==> t in s.hCondReady
  {
    if s.pc[t] == HAsleep && t !in s.oCondReady {
      ListFits(s.pc[t := HWoken], s.oCondReady, HSleepers);
      SumUpdate(s.pc, t, HWoken, HSleepers);
    }
    if s.pc[t] == OAsleep && t !in s.hCondReady {
      ListFits(s.pc[t := OWoken], s.hCondReady, OSleepers);
      SumUpdate(s.pc, t, OWoken, OSleepers);
    }
  }

  /** What an oxygen that wakes by itself changes in the counts. */
  lemma OxygenWakeupCounts(s: State, t: Tid)
    requires t < |s.pc| && s.pc[t] == OAsleep
    ensures var pc := SpuriousWakeup(s, t).pc;
      && Sum(pc, HSleepers) == Sum(s.pc, HSleepers) && Sum(pc, OSleepers) == Sum(s.pc, OSleepers) - 1
      && Sum(pc, OSignalled) == Sum(s.pc, OSignalled) + 1 && Sum(pc, HReleased) == Sum(s.pc, HReleased)
      && Sum(pc, OBonded) == Sum(s.pc, OBonded) && Sum(pc, OWatered) == Sum(s.pc, OWatered)
  {
    SumUpdate(s.pc, t, OWoken, HSleepers);
    SumUpdate(s.pc, t, OWoken, OSleepers);
    SumUpdate(s.pc, t, OWoken, OSignalled);
    SumUpdate(s.pc, t, OWoken, HReleased);
    SumUpdate(s.pc, t, OWoken, OBonded);
    SumUpdate(s.pc, t, OWoken, OWatered);
  }

  lemma OxygenWakeupKeepsPlaces(s: State, t: Tid)
    requires Exclusion(s) && Queues(s) && QueueSizes(s) && t < |s.pc| && s.pc[t] == OAsleep
    ensures var s' := SpuriousWakeup(s, t);
      && Exclusion(s') && Queues(s') && HolderPc(s') == HolderPc(s)
      && s'.oCondReady == s.oCondReady && |s'.hCondReady| == |s.hCondReady| - 1
  {
    SleeperIsListed(s, t);
  }

  lemma OxygenWakeupKeepsInv(s: State, t: Tid)
    requires Inv(s) && t < |s.pc| && s.pc[t] == OAsleep
    ensures Inv(SpuriousWakeup(s, t))
  {
    OxygenWakeupKeepsPlaces(s, t);
    OxygenWakeupCounts(s, t);
  }

  /** A wait that ends by itself does no harm if and only if it is an oxygen's: an oxygen tests the count again, while a
      hydrogen goes on as if it had reacted. */
  lemma SpuriousWakeupKeepsInvIff(s: State, t: Tid)
    requires Inv(s) && t < |s.pc| && (s.pc[t] == HAsleep || s.pc[t] == OAsleep)
    ensures Inv(SpuriousWakeup(s, t)) <==> s.pc[t] == OAsleep
  {
    if s.pc[t] == OAsleep {
      OxygenWakeupKeepsInv(s, t);
    } else {
      SleeperIsListed(s, t);
      assert HolderPc(SpuriousWakeup(s, t)) == HolderPc(s);
      assert |SpuriousWakeup(s, t).oCondReady| == |s.oCondReady| - 1;
    }
  }

  /** A lone hydrogen calls and goes to sleep. */
  function LoneHydrogen(): seq<State> {
    [INITIAL, State(0, None, {}, {}, [HEnter], 0), State(0, Some(0), {}, {}, [HCount], 0),
     State(1, Some(0), {}, {}, [HNotify], 0), State(1, Some(0), {}, {}, [HSleep], 0), State(1, None, {}, {0}, [HAsleep], 0)]
  }

  lemma LoneHydrogenStep(i: nat)
    requires 1 <= i < 5
    ensures OneStep(LoneHydrogen()[i], LoneHydrogen()[i + 1])
  {
    var s := LoneHydrogen()[i];
    assert Enabled(s, 0, 0) && Step(s, 0, 0).pc == LoneHydrogen()[i + 1].pc;
    assert LoneHydrogen()[i + 1] == Step(s, 0, 0);
  }

  /** So it may return although no oxygen ever came and no water was made. */
  lemma HydrogenReturnsEarly()
    ensures Run(LoneHydrogen())
    ensures var s := SpuriousWakeup(LoneHydrogen()[5], 0);
      && Enabled(s, 0, 0) && Enabled(Step(s, 0, 0), 0, 0)
      && Step(Step(s, 0, 0), 0, 0) == State(1, None, {}, {}, [HDone], 0)
  {
    assert Arrive(INITIAL, true).pc == [HEnter];
    forall i | 1 <= i < 5 ensures OneStep(LoneHydrogen()[i], LoneHydrogen()[i + 1]) {
      LoneHydrogenStep(i);
    }
    LoneHydrogenLeaves();
  }

  lemma LoneHydrogenLeaves()
    ensures var s := SpuriousWakeup(LoneHydrogen()[5], 0);
      && Enabled(s, 0, 0) && Enabled(Step(s, 0, 0), 0, 0)
      && Step(Step(s, 0, 0), 0, 0) == State(1, None, {}, {}, [HDone], 0)
  {
    var s := SpuriousWakeup(LoneHydrogen()[5], 0);
    assert s == State(1, None, {}, {}, [HWoken], 0);
    assert Step(s, 0, 0) == State(1, Some(0), {}, {}, [HLeave], 0);
  }

  // ---------------------------------------------------------------- all runs

  /** In every state of every run: hydrogens asleep number `h_num` whenever the lock is free, and if an oxygen
      sleeps then at least `h_num / 2` oxygens have been signalled. */
  lemma {:induction false} NoLostWakeupInAnyRun(run: seq<State>, i: nat)
    requires Run(run) && i < |run|
    ensures Inv(run[i])
    ensures run[i].lock == None ==> |run[i].oCondReady| == run[i].hNum
    ensures run[i].lock == None && run[i].hCondReady != {} ==> Sum(run[i].pc, OSignalled) >= run[i].hNum / 2
  {
    if i > 0 {
      NoLostWakeupInAnyRun(run, i - 1);
      var s, s' := run[i - 1], run[i];
      if s' == Arrive(s, true) {
        ArriveKeepsInv(s, true);
      } else if s' == Arrive(s, false) {
        ArriveKeepsInv(s, false);
      } else if OxygenWakesByItself(s, s') {
        var t: Tid :| t < |s.pc| && s.pc[t] == OAsleep && s' == SpuriousWakeup(s, t);
        OxygenWakeupKeepsInv(s, t);
      } else {
        OneStepKeepsInv(s, s');
      }
    }
  }

  /** No thread can run. */
  ghost predicate Quiescent(s: State) {
    forall t, w :: !Enabled(s, t, w)
  }

  predicate AtRest(p: Pc) { p.HAsleep? || p.HDone? || p.OAsleep? || p.ODone? }

  lemma QuiescentThreadsAtRest(s: State)
    requires Inv(s) && Quiescent(s)
    ensures s.lock == None
    ensures forall t :: 0 <= t < |s.pc| ==> AtRest(s.pc[t])
  {
    if s.lock.Some? {
      SomeoneToWake(s, s.lock.value);
    }
    forall t | 0 <= t < |s.pc| ensures AtRest(s.pc[t]) {
      if !AtRest(s.pc[t]) {
        SomeoneToWake(s, t);
      }
    }
  }

  /** A thread that may run is enabled with some choice of the waiter to wake. */
  lemma SomeoneToWake(s: State, t: Tid)
    requires Queues(s) && t < |s.pc|
    requires InMonitor(s.pc[t]) || (WantsLock(s.pc[t]) && s.lock == None)
    ensures exists w :: Enabled(s, t, w)
  {
    var ws := Signalled(s, s.pc[t]);
    var w := if ws == {} then 0 else PickWaiter(ws);
    assert Enabled(s, t, w);
  }

  ghost function PickWaiter(ws: set<Tid>): (w: Tid)
    requires ws != {}
    ensures w in ws
  {
    var w :| w in ws;
    w
  }

  lemma {:induction false} SumSplit(pc: seq<Pc>, k: Tally, a: Tally, b: Tally)
    requires forall t :: 0 <= t < |pc| ==> Weight(k, pc[t]) == Weight(a, pc[t]) + Weight(b, pc[t])
    ensures Sum(pc, k) == Sum(pc, a) + Sum(pc, b)
  {
    if pc != [] {
      SumSplit(pc[..|pc| - 1], k, a, b);
    }
  }

  lemma {:induction false} SumSame(pc: seq<Pc>, k: Tally, a: Tally)
    requires forall t :: 0 <= t < |pc| ==> Weight(k, pc[t]) == Weight(a, pc[t])
    ensures Sum(pc, k) == Sum(pc, a)
  {
    if pc != [] {
      SumSame(pc[..|pc| - 1], k, a);
    }
  }

  lemma {:induction false} SumZero(pc: seq<Pc>, k: Tally)
    requires forall t :: 0 <= t < |pc| ==> Weight(k, pc[t]) == 0
    ensures Sum(pc, k) == 0
  {
    if pc != [] {
      SumZero(pc[..|pc| - 1], k);
    }
  }

  lemma HydrogensAtRest(pc: seq<Pc>)
    requires forall t :: 0 <= t < |pc| ==> AtRest(pc[t])
    ensures Sum(pc, Hydrogens) == Sum(pc, HSleepers) + Sum(pc, HReleased)
    ensures Sum(pc, HReturned) == Sum(pc, HReleased)
  {
    SumSplit(pc, Hydrogens, HSleepers, HReleased);
    SumSame(pc, HReturned, HReleased);
  }

  lemma OxygensAtRest(pc: seq<Pc>)
    requires forall t :: 0 <= t < |pc| ==> AtRest(pc[t])
    ensures Sum(pc, Oxygens) == Sum(pc, OSleepers) + Sum(pc, OBonded)
    ensures Sum(pc, OBonded) == Sum(pc, OWatered)
  {
    SumSplit(pc, Oxygens, OSleepers, OBonded);
    SumSame(pc, OBonded, OWatered);
  }

  lemma OxygensSettled(pc: seq<Pc>)
    requires forall t :: 0 <= t < |pc| ==> AtRest(pc[t])
    ensures Sum(pc, OReturned) == Sum(pc, OBonded) && Sum(pc, OSignalled) == 0
  {
    SumSame(pc, OReturned, OBonded);
    SumZero(pc, OSignalled);
  }

  /** Every quiescent state of every run: as many molecules as the atoms that came allow, two hydrogens and
      one oxygen returned for each, and everyone else asleep. */
  lemma QuiescentYield(run: seq<State>)
    requires Run(run) && Quiescent(run[|run| - 1])
    ensures var s := run[|run| - 1];
      && s.water == Min(Sum(s.pc, Hydrogens) / 2, Sum(s.pc, Oxygens))
      && Sum(s.pc, HReturned) == 2 * s.water
      && Sum(s.pc, OReturned) == s.water
  {
    var s := run[|run| - 1];
    NoLostWakeupInAnyRun(run, |run| - 1);
    QuiescentThreadsAtRest(s);
    HydrogensAtRest(s.pc);
    OxygensAtRest(s.pc);
    OxygensSettled(s.pc);
    assert s.hCondReady == {} ==> Sum(s.pc, OSleepers) == 0;
    assert s.hCondReady != {} ==> s.hNum < 2;
  }

  /** Who moves in one statement: its thread, and the one waiter it wakes, if it wakes any. A hydrogen wakes an oxygen
      exactly if two hydrogens wait by then, and an oxygen wakes hydrogens. */
  lemma StepWakesOne(s: State, t: Tid, w: Tid, u: Tid)
    requires Enabled(s, t, w) && Queues(s) && u < |s.pc| && u != t
    ensures var p, s' := s.pc[t], Step(s, t, w);
      && |s'.pc| == |s.pc|
      && (u != w ==> s'.pc[u] == s.pc[u])
      && (u == w && p == HNotify && s.hNum >= 2 && s.hCondReady != {} ==> s.pc[u] == OAsleep && s'.pc[u] == OWoken)
      && (u == w && (p == OFirst || p == OSecond) && s.oCondReady != {} ==> s.pc[u] == HAsleep && s'.pc[u] == HWoken)
      && (p == HNotify ==> (s.hNum < 2 || s.hCondReady == {} ==> s'.pc[u] == s.pc[u]))
      && (p != HNotify && p != OFirst && p != OSecond ==> s'.pc[u] == s.pc[u])
  {
  }

  /** A call of `reaction_h` adds a hydrogen, one of `reaction_o` an oxygen. */
  lemma ArriveAddsOne(s: State, hydrogen: bool)
    ensures Sum(Arrive(s, hydrogen).pc, Hydrogens) == Sum(s.pc, Hydrogens) + (if hydrogen then 1 else 0)
    ensures Sum(Arrive(s, hydrogen).pc, Oxygens) == Sum(s.pc, Oxygens) + (if hydrogen then 0 else 1)
  {
    SumAppend(s.pc, if hydrogen then HEnter else OEnter);
  }

  /** No thread ever turns from one into the other. */
  lemma StepKeepsKinds(s: State, t: Tid, w: Tid)
    requires Queues(s) && Enabled(s, t, w)
    ensures Sum(Step(s, t, w).pc, Hydrogens) == Sum(s.pc, Hydrogens)
    ensures Sum(Step(s, t, w).pc, Oxygens) == Sum(s.pc, Oxygens)
  {
    var p := s.pc[t];
    SumStep(s, t, w, Hydrogens);
    SumStep(s, t, w, Oxygens);
    assert IsHydrogen(NextPc(p, s.hNum)) <==> IsHydrogen(p);
  }

  lemma BondedThenWatered(s: State)
    requires Exclusion(s)
    ensures Sum(s.pc, OBonded) == Sum(s.pc, OWatered) + if HolderPc(s) == Some(OWater) then 1 else 0
  {
    if HolderPc(s) == Some(OWater) {
      var t := s.lock.value;
      var pc := s.pc[t := OTake];
      SumUpdate(s.pc, t, OTake, OBonded);
      SumUpdate(s.pc, t, OTake, OWatered);
      SumSame(pc, OBonded, OWatered);
    } else {
      SumSame(s.pc, OBonded, OWatered);
    }
  }

  /** No hydrogen leaves before its water is made: in every state of every run those let go are at most two to a water,
      and exactly two whenever the lock is free. No oxygen leaves without its water either. */
  lemma LeavesWithWater(run: seq<State>, i: nat)
    requires Run(run) && i < |run|
    ensures Sum(run[i].pc, HReleased) <= 2 * run[i].water && Sum(run[i].pc, OReturned) <= run[i].water
    ensures run[i].lock == None ==> Sum(run[i].pc, HReleased) == 2 * run[i].water
  {
    NoLostWakeupInAnyRun(run, i);
    BondedThenWatered(run[i]);
    ReturnedWereWatered(run[i].pc);
  }

  lemma {:induction false} ReturnedWereWatered(pc: seq<Pc>)
    ensures Sum(pc, OReturned) <= Sum(pc, OWatered)
  {
    if pc != [] {
      ReturnedWereWatered(pc[..|pc| - 1]);
    }
  }

  ghost predicate OneStep(s: State, s': State) {
    exists t, w :: Enabled(s, t, w) && s' == Step(s, t, w)
  }

  /** Consecutive statements, with no new call. */
  ghost predicate Steps(run: seq<State>) {
    |run| > 0 && (|run| > 1 ==> OneStep(run[|run| - 2], run[|run| - 1]) && Steps(run[..|run| - 1]))
  }

  /** With no new calls the monitor comes to rest: the work left bounds the number of statements. */
  lemma {:induction false} ComesToRest(run: seq<State>)
    requires Steps(run) && Inv(run[0])
    ensures Inv(run[|run| - 1])
    ensures |run| - 1 + Sum(run[|run| - 1].pc, Work) <= Sum(run[0].pc, Work)
  {
    var n := |run| - 1;
    if n > 0 {
      ComesToRest(run[..n]);
      OneStepKeepsInv(run[n - 1], run[n]);
    }
  }

  lemma OneStepKeepsInv(s: State, s': State)
    requires OneStep(s, s') && Inv(s)
    ensures Inv(s') && Sum(s'.pc, Work) < Sum(s.pc, Work)
  {
    var t, w :| Enabled(s, t, w) && s' == Step(s, t, w);
    StepKeepsInv(s, t, w);
    StepUsesWork(s, t, w);
  }
}
