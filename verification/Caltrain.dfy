/** The train-station monitor: any number of passengers and one train at a time, one statement at a time. */
module Caltrain {
  import opened Common

  type Tid = nat

  /** The next statement of a thread. A passenger runs `station_wait_for_train` (`W...`) and then, once,
      `station_on_board` (`B...`); a train runs `station_load_train` (`T...`). */
  datatype Pc =
    | WEnter | WCount | WTest | WAsleep | WWoken | WTake | WBoard | WLeave
    | BEnter | BBoard | BSeat | BSignal | BLeave | BDone
    | TEnter(count: nat) | TAdd(count: nat) | TTest | TBroadcast | TSleep | TAsleep | TWoken
    | TZeroSeat | TZeroBoard | TLeave | TDone

  /** `seats`, `boardings` and `late` are history: the seat count of the last train to pull in, how many passengers
      have got through the turnstile since, and how many were on board but not seated when the last one left. */
  datatype State = State(seatNum: int, waiting: int, boarded: int, lock: Option<Tid>,
                         condFull: set<Tid>, condTrain: set<Tid>, pc: seq<Pc>, seats: nat, boardings: nat,
                         late: nat)

  const INITIAL: State := State(0, 0, 0, None, {}, {}, [], 0, 0, 0)

  // ---------------------------------------------------------------- transitions

  predicate IsTrain(p: Pc) {
    || p.TEnter? || p.TAdd? || p.TTest? || p.TBroadcast? || p.TSleep? || p.TAsleep? || p.TWoken?
    || p.TZeroSeat? || p.TZeroBoard? || p.TLeave? || p.TDone?
  }

  predicate Departing(p: Pc) { p.TZeroSeat? || p.TZeroBoard? || p.TLeave? || p.TDone? }

  predicate Boarding(p: Pc) { p.BEnter? || p.BBoard? || p.BSeat? || p.BSignal? || p.BLeave? || p.BDone? }

  predicate WantsLock(p: Pc) { p.WEnter? || p.WWoken? || p.BEnter? || p.TEnter? || p.TWoken? }

  predicate InMonitor(p: Pc) {
    || p.WCount? || p.WTest? || p.WTake? || p.WBoard? || p.WLeave?
    || p.BBoard? || p.BSeat? || p.BSignal? || p.BLeave?
    || p.TAdd? || p.TTest? || p.TBroadcast? || p.TSleep? || p.TZeroSeat? || p.TZeroBoard? || p.TLeave?
  }

  /** Where the statement at the current point leads. */
  function NextPc(s: State, p: Pc): Pc {
    match p
    case WEnter => WCount
    case WCount => WTest
    case WTest => if s.boarded == s.seatNum then WAsleep else WTake
    case WWoken => WTest
    case WTake => WBoard
    case WBoard => WLeave
    case WLeave => BEnter
    case BEnter => BBoard
    case BBoard => BSeat
    case BSeat => BSignal
    case BSignal => BLeave
    case BLeave => BDone
    case TEnter(n) => TAdd(n)
    case TAdd(_) => TTest
    case TTest => if s.seatNum > 0 && s.waiting > 0 then TBroadcast else TZeroSeat
    case TBroadcast => TSleep
    case TSleep => TAsleep
    case TWoken => TTest
    case TZeroSeat => TZeroBoard
    case TZeroBoard => TLeave
    case TLeave => TDone
    case _ => p
  }

  /** Trains asleep that the statement at `p` may wake. */
  function Signalled(s: State, p: Pc): set<Tid> {
    if p == BSignal && (s.seatNum == 0 || s.boarded == 0) then s.condFull else {}
  }

  /** Thread `t` can run its next statement; `w` is the train it wakes, if it wakes one. */
  predicate Enabled(s: State, t: Tid, w: Tid) {
    && t < |s.pc|
    && (WantsLock(s.pc[t]) || InMonitor(s.pc[t]))
    && (WantsLock(s.pc[t]) ==> s.lock == None)
    && (Signalled(s, s.pc[t]) != {} ==> w in Signalled(s, s.pc[t]) && w < |s.pc|)
  }

  /** Every waiting passenger wakes. */
  function WakeAll(pc: seq<Pc>, sleepers: set<Tid>): (r: seq<Pc>)
    ensures |r| == |pc|
  {
    seq(|pc|, t requires 0 <= t < |pc| => if t in sleepers then WWoken else pc[t])
  }

  /** Through the turnstile and not yet off the count of those on board. */
  predicate IsStanding(p: Pc) { p.WLeave? || p.BEnter? || p.BBoard? }

  /** Counted among those waiting. */
  predicate IsWaiting(p: Pc) { p.WTest? || p.WAsleep? || p.WWoken? || p.WTake? }

  datatype Place = OnFoot | InLine

  predicate IsAt(p: Pc, place: Place) {
    match place
    case OnFoot => IsStanding(p)
    case InLine => IsWaiting(p)
  }

  function Number(pc: seq<Pc>, place: Place): nat {
    if pc == [] then 0 else Number(pc[..|pc| - 1], place) + if IsAt(pc[|pc| - 1], place) then 1 else 0
  }

  function Standing(pc: seq<Pc>): nat { Number(pc, OnFoot) }

  /** Thread `t` runs one statement. */
  function Step(s: State, t: Tid, w: Tid): State
    requires Enabled(s, t, w)
  {
    var p := s.pc[t];
    var next := NextPc(s, p);
    var wake := Signalled(s, p) != {};
    State(
      seatNum := if p.TAdd? then s.seatNum + p.count else if p == BSeat then s.seatNum - 1
                 else if p == TZeroSeat then 0 else s.seatNum,
      waiting := if p == WCount then s.waiting + 1 else if p == WTake then s.waiting - 1 else s.waiting,
      boarded := if p == WBoard then s.boarded + 1 else if p == BBoard then s.boarded - 1
                 else if p == TZeroBoard then 0 else s.boarded,
      lock := if InMonitor(next) then Some(t) else None,
      condFull := if next == TAsleep then s.condFull + {t} else if wake then s.condFull - {w} else s.condFull,
      condTrain := if next == WAsleep then s.condTrain + {t} else if p == TBroadcast then {} else s.condTrain,
      pc := (if wake then s.pc[w := TWoken] else if p == TBroadcast then WakeAll(s.pc, s.condTrain) else s.pc)[t := next],
      seats := if p.TAdd? then p.count else s.seats,
      boardings := if p.TAdd? then 0 else if p == WBoard then s.boardings + 1 else s.boardings,
      late := if p == TZeroBoard then Standing(s.pc) else s.late)
  }

  /** Who moves in one statement: its thread, every waiting passenger when a train broadcasts, and the one train that is
      woken when a passenger has sat down and seats have run out or `boarded` is zero. */
  lemma StepWakes(s: State, t: Tid, w: Tid, u: Tid)
    requires Enabled(s, t, w) && u < |s.pc| && u != t
    ensures var p, s' := s.pc[t], Step(s, t, w);
      && |s'.pc| == |s.pc|
      && (p == TBroadcast ==> s'.condTrain == {} && s'.pc[u] == (if u in s.condTrain then WWoken else s.pc[u]))
      && (p == BSignal && (s.seatNum == 0 || s.boarded == 0) && s.condFull != {} ==>
            w in s.condFull && s'.condFull == s.condFull - {w} && s'.pc[u] == (if u == w then TWoken else s.pc[u]))
      && (p != TBroadcast && p != BSignal ==> s'.pc[u] == s.pc[u])
      && (p == BSignal && ((s.seatNum != 0 && s.boarded != 0) || s.condFull == {}) ==> s'.pc[u] == s.pc[u])
  {
  }

  /** A wait may also end by itself: sleeper `t` goes for the lock though nobody has signalled. */
  function SpuriousWakeup(s: State, t: Tid): State
    requires t < |s.pc| && (s.pc[t] == WAsleep || s.pc[t] == TAsleep)
  {
    s.(condFull := s.condFull - {t}, condTrain := s.condTrain - {t},
       pc := s.pc[t := if s.pc[t] == WAsleep then WWoken else TWoken])
  }

  function PassengerArrives(s: State): State {
    s.(pc := s.pc + [WEnter])
  }

  /** No train is at the station or on its way in. */
  predicate NoTrain(pc: seq<Pc>) {
    forall t :: 0 <= t < |pc| && IsTrain(pc[t]) ==> pc[t] == TDone
  }

  function TrainArrives(s: State, count: nat): State
    requires NoTrain(s.pc)
  {
    s.(pc := s.pc + [TEnter(count)])
  }

  ghost predicate OneStep(s: State, s': State) {
    exists t, w :: Enabled(s, t, w) && s' == Step(s, t, w)
  }

  ghost predicate TrainEnters(s: State, s': State) {
    NoTrain(s.pc) && exists count: nat :: s' == TrainArrives(s, count)
  }

  ghost predicate WakesByItself(s: State, s': State) {
    exists t: Tid :: t < |s.pc| && (s.pc[t] == WAsleep || s.pc[t] == TAsleep) && s' == SpuriousWakeup(s, t)
  }

  ghost predicate Next(s: State, s': State) {
    s' == PassengerArrives(s) || TrainEnters(s, s') || WakesByItself(s, s') || OneStep(s, s')
  }

  /** One train at a time is part of what a run is; the interleaving is otherwise arbitrary. */
  ghost predicate Run(run: seq<State>) {
    && |run| > 0 && run[0] == INITIAL
    && forall i :: 0 < i < |run| ==> Next(run[i - 1], run[i])
  }

  // ---------------------------------------------------------------- the invariant

  function Inside(p: Pc): Option<Pc> {
    if InMonitor(p) then Some(p) else None
  }

  function HolderPc(s: State): Option<Pc> {
    if s.lock.Some? && s.lock.value < |s.pc| then Some(s.pc[s.lock.value]) else None
  }

  ghost predicate Exclusion(s: State) {
    && (s.lock.Some? ==> s.lock.value < |s.pc| && InMonitor(s.pc[s.lock.value]))
    && forall t :: 0 <= t < |s.pc| && InMonitor(s.pc[t]) ==> s.lock == Some(t)
  }

  ghost predicate Queues(s: State) {
    && (forall t :: t in s.condFull ==> t < |s.pc| && s.pc[t] == TAsleep)
    && (forall t :: t in s.condTrain ==> t < |s.pc| && s.pc[t] == WAsleep)
  }

  ghost predicate OneTrain(s: State) {
    forall t, u :: 0 <= t < u < |s.pc| && IsTrain(s.pc[t]) && IsTrain(s.pc[u]) ==> s.pc[t] == TDone || s.pc[u] == TDone
  }

  /** A train has added its seats and not yet taken them away. */
  predicate AtPlatform(p: Pc) {
    p.TTest? || p.TBroadcast? || p.TSleep? || p.TAsleep? || p.TWoken? || p.TZeroSeat?
  }

  ghost predicate TrainAtPlatform(s: State) {
    exists t :: 0 <= t < |s.pc| && AtPlatform(s.pc[t])
  }

  /** Seats not yet promised to anyone, read in the middle of `station_on_board`'s two decrements. */
  function FreeSeats(s: State): int {
    s.seatNum - s.boarded - if HolderPc(s) == Some(BSeat) then 1 else 0
  }

  /** The accounts: with a train at the platform the free seats are its seats less the passengers it let
      through; with none, except while one is half-way through clearing the counters, there are none. */
  ghost predicate Accounts(s: State) {
    && (TrainAtPlatform(s) ==> FreeSeats(s) == s.seats - s.boardings)
    && (!TrainAtPlatform(s) && HolderPc(s) != Some(TZeroBoard) ==> FreeSeats(s) == 0)
    && (HolderPc(s) == Some(TZeroBoard) ==> s.seatNum == 0 && !TrainAtPlatform(s))
    && (HolderPc(s) == Some(WTake) || HolderPc(s) == Some(WBoard) ==> FreeSeats(s) != 0)
    && s.boardings <= s.seats
  }

  /** Everyone standing is counted on board, but for those whom a train that has left counted off. */
  ghost predicate StandingCounted(s: State) {
    Standing(s.pc) == s.boarded + s.late
  }

  ghost predicate Inv(s: State) {
    Exclusion(s) && Queues(s) && OneTrain(s) && Accounts(s) && StandingCounted(s)
  }

  lemma {:induction false} NumberUpdate(pc: seq<Pc>, t: Tid, p: Pc, place: Place)
    requires t < |pc|
    ensures Number(pc[t := p], place) ==
      Number(pc, place) - (if IsAt(pc[t], place) then 1 else 0) + (if IsAt(p, place) then 1 else 0)
  {
    var n := |pc| - 1;
    if t < n {
      NumberUpdate(pc[..n], t, p, place);
      assert pc[t := p][..n] == pc[..n][t := p];
    } else {
      assert pc[t := p][..n] == pc[..n];
    }
  }

  lemma {:induction false} NumberSame(a: seq<Pc>, b: seq<Pc>, place: Place)
    requires |a| == |b| && forall t :: 0 <= t < |a| ==> (IsAt(a[t], place) <==> IsAt(b[t], place))
    ensures Number(a, place) == Number(b, place)
  {
    if a != [] {
      NumberSame(a[..|a| - 1], b[..|b| - 1], place);
    }
  }

  lemma {:induction false} SomebodyThere(pc: seq<Pc>, place: Place) returns (t: Tid)
    requires Number(pc, place) > 0
    ensures t < |pc| && IsAt(pc[t], place)
  {
    t := |pc| - 1;
    if !IsAt(pc[t], place) {
      t := SomebodyThere(pc[..t], place);
    }
  }

  /** Waking sleepers makes nobody stand, and takes nobody from those waiting. */
  lemma NumberStep(s: State, t: Tid, w: Tid, place: Place)
    requires Enabled(s, t, w) && Queues(s)
    ensures var p, next := s.pc[t], NextPc(s, s.pc[t]);
      Number(Step(s, t, w).pc, place) ==
        Number(s.pc, place) - (if IsAt(p, place) then 1 else 0) + (if IsAt(next, place) then 1 else 0)
  {
    var p := s.pc[t];
    var woken := if Signalled(s, p) != {} then s.pc[w := TWoken]
                 else if p == TBroadcast then WakeAll(s.pc, s.condTrain) else s.pc;
    NumberSame(woken, s.pc, place);
    NumberUpdate(woken, t, NextPc(s, p), place);
  }

  lemma StepKeepsStanding(s: State, t: Tid, w: Tid)
    requires Enabled(s, t, w) && Queues(s) && StandingCounted(s)
    ensures StandingCounted(Step(s, t, w))
  {
    NumberStep(s, t, w, OnFoot);
  }

  /** The other threads stay where they are, except that sleepers may be woken. */
  lemma OthersAfter(s: State, t: Tid, w: Tid, u: Tid)
    requires Enabled(s, t, w) && Queues(s) && u < |s.pc| && u != t
    ensures var q, q' := s.pc[u], Step(s, t, w).pc[u];
      q' == q || (q == TAsleep && q' == TWoken) || (q == WAsleep && q' == WWoken)
  {
  }

  lemma StepKeepsExclusion(s: State, t: Tid, w: Tid)
    requires Enabled(s, t, w) && Queues(s) && Exclusion(s)
    ensures Exclusion(Step(s, t, w))
  {
    forall u | 0 <= u < |s.pc| && u != t
      ensures !InMonitor(Step(s, t, w).pc[u])
    {
      OthersAfter(s, t, w, u);
    }
  }

  lemma StepKeepsQueues(s: State, t: Tid, w: Tid)
    requires Enabled(s, t, w) && Queues(s)
    ensures Queues(Step(s, t, w))
  {
  }

  /** As far as trains go only thread `t` has moved, and it is a train still or was none. */
  ghost predicate OnlyMoves(pc: seq<Pc>, pc': seq<Pc>, t: Tid) {
    && t < |pc| == |pc'| && pc[t] != TDone && IsTrain(pc'[t]) == IsTrain(pc[t])
    && forall u :: 0 <= u < |pc| && u != t ==> SamePlace(pc[u], pc'[u])
  }

  predicate SamePlace(p: Pc, q: Pc) {
    IsTrain(q) == IsTrain(p) && AtPlatform(q) == AtPlatform(p) && (p == TDone ==> q == TDone)
  }

  lemma OneTrainMoves(s: State, s': State, t: Tid)
    requires OneTrain(s) && OnlyMoves(s.pc, s'.pc, t)
    ensures OneTrain(s')
    ensures TrainAtPlatform(s') <==> if IsTrain(s.pc[t]) then AtPlatform(s'.pc[t]) else TrainAtPlatform(s)
  {
    forall u, v | 0 <= u < v < |s'.pc| && IsTrain(s'.pc[u]) && IsTrain(s'.pc[v]) ensures s'.pc[u] == TDone || s'.pc[v] == TDone {
      assert u != t ==> SamePlace(s.pc[u], s'.pc[u]);
      assert v != t ==> SamePlace(s.pc[v], s'.pc[v]);
    }
    if TrainAtPlatform(s') {
      var u :| 0 <= u < |s'.pc| && AtPlatform(s'.pc[u]);
      assert u != t ==> SamePlace(s.pc[u], s'.pc[u]) && AtPlatform(s.pc[u]);
    }
    if TrainAtPlatform(s) {
      var u :| 0 <= u < |s.pc| && AtPlatform(s.pc[u]);
      assert u != t ==> SamePlace(s.pc[u], s'.pc[u]) && AtPlatform(s'.pc[u]);
    }
  }

  lemma StepKeepsOneTrain(s: State, t: Tid, w: Tid)
    requires Enabled(s, t, w) && Queues(s) && OneTrain(s)
    ensures OneTrain(Step(s, t, w))
    ensures TrainAtPlatform(Step(s, t, w)) <==>
      if IsTrain(s.pc[t]) then AtPlatform(NextPc(s, s.pc[t])) else TrainAtPlatform(s)
  {
    var s' := Step(s, t, w);
    assert s'.pc[t] == NextPc(s, s.pc[t]);
    forall u | 0 <= u < |s.pc| && u != t ensures SamePlace(s.pc[u], s'.pc[u]) {
      OthersAfter(s, t, w, u);
    }
    OneTrainMoves(s, s', t);
  }

  lemma HolderMoves(s: State, t: Tid, w: Tid)
    requires Enabled(s, t, w) && Queues(s) && Exclusion(s)
    ensures var s' := Step(s, t, w);
      && HolderPc(s) == Inside(s.pc[t])
      && HolderPc(s') == Inside(NextPc(s, s.pc[t])) && s'.pc[t] == NextPc(s, s.pc[t])
  {
  }

  /** The accounts as kept by a thread at `p`, if it is in the monitor, with or without a train at the platform. */
  predicate Balanced(p: Pc, train: bool, seatNum: int, boarded: int, seats: nat, boardings: nat) {
    var free := seatNum - boarded - if p == BSeat then 1 else 0;
    && (train ==> free == seats - boardings)
    && (!train && p != TZeroBoard ==> free == 0)
    && (p == TZeroBoard ==> seatNum == 0 && !train)
    && (p == WTake || p == WBoard ==> free != 0)
    && boardings <= seats
  }

  lemma AccountsAre(s: State, p: Pc)
    requires HolderPc(s) == Inside(p)
    ensures Accounts(s) <==> Balanced(p, TrainAtPlatform(s), s.seatNum, s.boarded, s.seats, s.boardings)
  {
  }

  /** Statement by statement. */
  lemma StepBalances(s: State, t: Tid, w: Tid, train: bool, train': bool)
    requires Enabled(s, t, w) && Balanced(s.pc[t], train, s.seatNum, s.boarded, s.seats, s.boardings)
    requires train' == if IsTrain(s.pc[t]) then AtPlatform(NextPc(s, s.pc[t])) else train
    requires if IsTrain(s.pc[t]) then train == AtPlatform(s.pc[t]) else true
    ensures var s' := Step(s, t, w);
      Balanced(NextPc(s, s.pc[t]), train', s'.seatNum, s'.boarded, s'.seats, s'.boardings)
  {
  }

  lemma StepKeepsAccounts(s: State, t: Tid, w: Tid)
    requires Enabled(s, t, w) && Inv(s)
    ensures Accounts(Step(s, t, w))
  {
    var s', p := Step(s, t, w), s.pc[t];
    HolderMoves(s, t, w);
    AccountsAre(s, p);
    AccountsAre(s', NextPc(s, p));
    assert TrainAtPlatform(s') <==> if IsTrain(p) then AtPlatform(NextPc(s, p)) else TrainAtPlatform(s) by {
      StepKeepsOneTrain(s, t, w);
    }
    assert IsTrain(p) ==> (TrainAtPlatform(s) <==> AtPlatform(p));
    StepBalances(s, t, w, TrainAtPlatform(s), TrainAtPlatform(s'));
  }

  lemma StepKeepsInv(s: State, t: Tid, w: Tid)
    requires Enabled(s, t, w) && Inv(s)
    ensures Inv(Step(s, t, w))
  {
    StepKeepsExclusion(s, t, w);
    StepKeepsQueues(s, t, w);
    StepKeepsOneTrain(s, t, w);
    StepKeepsAccounts(s, t, w);
    StepKeepsStanding(s, t, w);
  }

  /** A wait that ends by itself does no harm. */
  lemma SpuriousWakeupKeepsInv(s: State, t: Tid)
    requires Inv(s) && t < |s.pc| && (s.pc[t] == WAsleep || s.pc[t] == TAsleep)
    ensures Inv(SpuriousWakeup(s, t))
  {
    var s' := SpuriousWakeup(s, t);
    SpuriousWakeupKeepsPlaces(s, t);
    assert StandingCounted(s') by {
      NumberUpdate(s.pc, t, s'.pc[t], OnFoot);
    }
    OneTrainMoves(s, s', t);
    assert TrainAtPlatform(s') <==> TrainAtPlatform(s) by {
      assert AtPlatform(s.pc[t]) ==> TrainAtPlatform(s);
    }
    assert Accounts(s');
  }

  lemma SpuriousWakeupKeepsPlaces(s: State, t: Tid)
    requires Exclusion(s) && Queues(s) && t < |s.pc| && (s.pc[t] == WAsleep || s.pc[t] == TAsleep)
    ensures var s' := SpuriousWakeup(s, t);
      Exclusion(s') && Queues(s') && HolderPc(s') == HolderPc(s) && OnlyMoves(s.pc, s'.pc, t)
  {
  }

  lemma ArrivalKeepsInv(s: State, p: Pc)
    requires Inv(s) && (p == WEnter || (p.TEnter? && NoTrain(s.pc)))
    ensures Inv(s.(pc := s.pc + [p]))
  {
    var s' := s.(pc := s.pc + [p]);
    ArrivalKeepsPlaces(s, p);
    assert StandingCounted(s') by {
      assert s'.pc[..|s.pc|] == s.pc;
    }
    assert Accounts(s');
  }

  lemma ArrivalKeepsPlaces(s: State, p: Pc)
    requires Exclusion(s) && Queues(s) && OneTrain(s) && (p == WEnter || (p.TEnter? && NoTrain(s.pc)))
    ensures var s' := s.(pc := s.pc + [p]);
      && Exclusion(s') && Queues(s') && OneTrain(s') && HolderPc(s') == HolderPc(s)
      && (TrainAtPlatform(s') <==> TrainAtPlatform(s))
  {
    var s' := s.(pc := s.pc + [p]);
    if TrainAtPlatform(s) {
      var t :| 0 <= t < |s.pc| && AtPlatform(s.pc[t]);
      assert AtPlatform(s'.pc[t]);
    }
  }

  /** What the statements of a departing train come to. */
  lemma DepartsBy(s: State, t: Tid, w: Tid)
    requires Enabled(s, t, w) && Departing(s.pc[t]) && s.lock == Some(t)
    ensures Step(s, t, w) ==
      match s.pc[t]
      case TZeroSeat => s.(seatNum := 0, pc := s.pc[t := TZeroBoard])
      case TZeroBoard => s.(boarded := 0, late := Standing(s.pc), pc := s.pc[t := TLeave])
      case _ => s.(lock := None, pc := s.pc[t := TDone])
  {
  }

  /** And those of the loop of a train. */
  lemma LoadsBy(s: State, t: Tid, w: Tid)
    requires Enabled(s, t, w) && (s.pc[t].TTest? || s.pc[t].TBroadcast? || s.pc[t].TSleep? || s.pc[t].TWoken?)
    requires InMonitor(s.pc[t]) ==> s.lock == Some(t)
    ensures Step(s, t, w) ==
      match s.pc[t]
      case TTest => s.(pc := s.pc[t := if s.seatNum > 0 && s.waiting > 0 then TBroadcast else TZeroSeat])
      case TBroadcast => s.(condTrain := {}, pc := WakeAll(s.pc, s.condTrain)[t := TSleep])
      case TSleep => s.(condFull := s.condFull + {t}, lock := None, pc := s.pc[t := TAsleep])
      case _ => s.(lock := Some(t), pc := s.pc[t := TTest])
  {
  }

  /** And those of a passenger on board. */
  lemma BoardsBy(s: State, t: Tid, w: Tid)
    requires Enabled(s, t, w) && Boarding(s.pc[t]) && (InMonitor(s.pc[t]) ==> s.lock == Some(t))
    ensures Step(s, t, w) ==
      match s.pc[t]
      case BEnter => s.(lock := Some(t), pc := s.pc[t := BBoard])
      case BBoard => s.(boarded := s.boarded - 1, pc := s.pc[t := BSeat])
      case BSeat => s.(seatNum := s.seatNum - 1, pc := s.pc[t := BSignal])
      case BSignal =>
        if Signalled(s, BSignal) == {} then s.(pc := s.pc[t := BLeave])
        else s.(condFull := s.condFull - {w}, pc := s.pc[w := TWoken][t := BLeave])
      case _ => s.(lock := None, pc := s.pc[t := BDone])
  {
  }

  // ---------------------------------------------------------------- the station itself

  /** The shared fields, and the statements that change them in place. */
  class Station {
    var seatNum: int
    var waiting: int
    var boarded: int
    var lock: Option<Tid>
    var condFull: set<Tid>
    var condTrain: set<Tid>
    var pc: seq<Pc>
    ghost var seats: nat
    ghost var boardings: nat
    ghost var late: nat

    ghost function Abstract(): State
      reads this
    {
      State(seatNum, waiting, boarded, lock, condFull, condTrain, pc, seats, boardings, late)
    }

    constructor ()
      ensures Abstract() == INITIAL
    {
      seatNum, waiting, boarded, lock, condFull, condTrain, pc := 0, 0, 0, None, {}, {}, [];
      seats, boardings, late := 0, 0, 0;
    }

    /** Wakes every waiting passenger, one signal at a time. */
    method CondBroadcast()
      requires forall t :: t in condTrain ==> t < |pc|
      modifies this`condTrain, this`pc
      ensures condTrain == {} && pc == WakeAll(old(pc), old(condTrain))
    {
      while condTrain != {}
        invariant condTrain <= old(condTrain) && |pc| == |old(pc)|
        invariant forall t :: 0 <= t < |pc| ==>
          pc[t] == if t in old(condTrain) && t !in condTrain then WWoken else old(pc)[t]
        decreases condTrain
      {
        var t :| t in condTrain;
        condTrain := condTrain - {t};
        pc := pc[t := WWoken];
      }
    }

    /** A wait that ends though nobody has signalled. */
    method EndWait(t: Tid)
      requires t < |pc| && (pc[t] == WAsleep || pc[t] == TAsleep)
      modifies this
      ensures Abstract() == SpuriousWakeup(old(Abstract()), t)
    {
      condFull, condTrain := condFull - {t}, condTrain - {t};
      pc := pc[t := if pc[t] == WAsleep then WWoken else TWoken];
    }

    /** One statement of `station_load_train` by thread `t`, before its loop. */
    method PullIn(t: Tid, w: Tid)
      requires Enabled(Abstract(), t, w) && (pc[t].TEnter? || pc[t].TAdd?) && (InMonitor(pc[t]) ==> lock == Some(t))
      modifies this
      ensures Abstract() == Step(old(Abstract()), t, w)
    {
      match pc[t] {
        case TEnter(count) => lock := Some(t); pc := pc[t := TAdd(count)];
        case TAdd(count) => seatNum := seatNum + count; pc := pc[t := TTest]; seats, boardings := count, 0;
      }
    }

    /** One statement of its loop. */
    method LoadTrain(t: Tid, w: Tid)
      requires Enabled(Abstract(), t, w) && (pc[t].TTest? || pc[t].TBroadcast? || pc[t].TSleep? || pc[t].TWoken?)
      requires InMonitor(pc[t]) ==> lock == Some(t)
      requires forall u :: u in condTrain ==> u < |pc|
      modifies this
      ensures Abstract() == Step(old(Abstract()), t, w)
    {
      LoadsBy(Abstract(), t, w);
      match pc[t] {
        case TTest => pc := pc[t := if seatNum > 0 && waiting > 0 then TBroadcast else TZeroSeat];
        case TBroadcast => CondBroadcast(); pc := pc[t := TSleep];
        case TSleep => condFull := condFull + {t}; lock := None; pc := pc[t := TAsleep];
        case TWoken => lock := Some(t); pc := pc[t := TTest];
      }
    }

    /** One statement of what follows the loop: the train leaves. */
    method Depart(t: Tid, w: Tid)
      requires Enabled(Abstract(), t, w) && Departing(pc[t]) && lock == Some(t)
      modifies this
      ensures Abstract() == Step(old(Abstract()), t, w)
    {
      DepartsBy(Abstract(), t, w);
      match pc[t] {
        case TZeroSeat => seatNum := 0; pc := pc[t := TZeroBoard];
        case TZeroBoard => late := Standing(pc); boarded := 0; pc := pc[t := TLeave];
        case TLeave => lock := None; pc := pc[t := TDone];
      }
    }

    /** One statement of `station_wait_for_train` by thread `t`. */
    method WaitForTrain(t: Tid, w: Tid)
      requires Enabled(Abstract(), t, w) && !IsTrain(pc[t]) && !Boarding(pc[t])
      requires InMonitor(pc[t]) ==> lock == Some(t)
      modifies this
      ensures Abstract() == Step(old(Abstract()), t, w)
    {
      match pc[t] {
        case WEnter => lock := Some(t); pc := pc[t := WCount];
        case WCount => waiting := waiting + 1; pc := pc[t := WTest];
        case WTest =>
          if boarded == seatNum {
            condTrain := condTrain + {t};
            lock := None;
            pc := pc[t := WAsleep];
          } else {
            pc := pc[t := WTake];
          }
        case WWoken => lock := Some(t); pc := pc[t := WTest];
        case WTake => waiting := waiting - 1; pc := pc[t := WBoard];
        case WBoard => boarded := boarded + 1; pc := pc[t := WLeave]; boardings := boardings + 1;
        case WLeave => lock := None; pc := pc[t := BEnter];
      }
    }

    /** One statement of `station_on_board` by thread `t`. */
    method OnBoard(t: Tid, w: Tid)
      requires Enabled(Abstract(), t, w) && Boarding(pc[t]) && (InMonitor(pc[t]) ==> lock == Some(t))
      modifies this
      ensures Abstract() == Step(old(Abstract()), t, w)
    {
      BoardsBy(Abstract(), t, w);
      match pc[t] {
        case BEnter => lock := Some(t); pc := pc[t := BBoard];
        case BBoard => boarded := boarded - 1; pc := pc[t := BSeat];
        case BSeat => seatNum := seatNum - 1; pc := pc[t := BSignal];
        case BSignal =>
          if (seatNum == 0 || boarded == 0) && condFull != {} {
            condFull := condFull - {w};
            pc := pc[w := TWoken];
          }
          pc := pc[t := BLeave];
        case BLeave => lock := None; pc := pc[t := BDone];
      }
    }
  }

  // ---------------------------------------------------------------- all runs

  lemma {:induction false} InvInAnyRun(run: seq<State>, i: nat)
    requires Run(run) && i < |run|
    ensures Inv(run[i])
  {
    if i > 0 {
      InvInAnyRun(run, i - 1);
      var s, s' := run[i - 1], run[i];
      if s' == PassengerArrives(s) {
        ArrivalKeepsInv(s, WEnter);
      } else if TrainEnters(s, s') {
        var count: nat :| s' == TrainArrives(s, count);
        ArrivalKeepsInv(s, TEnter(count));
      } else if WakesByItself(s, s') {
        var t: Tid :| t < |s.pc| && (s.pc[t] == WAsleep || s.pc[t] == TAsleep) && s' == SpuriousWakeup(s, t);
        SpuriousWakeupKeepsInv(s, t);
      } else {
        var t, w :| Enabled(s, t, w) && s' == Step(s, t, w);
        StepKeepsInv(s, t, w);
      }
    }
  }

  /** In every state of every run no train has let through more passengers than it has seats. Whenever the lock is free
      the counters show no more on board than there are seats, and between trains they agree, so that nobody gets
      through the turnstile. They need not be zero then: a passenger left standing takes both below. */
  lemma TrainNeverOverfills(run: seq<State>, i: nat)
    requires Run(run) && i < |run|
    ensures run[i].boardings <= run[i].seats
    ensures run[i].lock == None ==> run[i].boarded <= run[i].seatNum
    ensures run[i].lock == None && NoTrain(run[i].pc) ==> run[i].boarded == run[i].seatNum
  {
    InvInAnyRun(run, i);
  }

  /** When a train may leave somebody standing. The test that ends its loop lets it go; those standing then are those on
      board and any whom earlier trains left. If none were left before, it leaves somebody exactly when it goes because
      nobody is waiting any more while somebody is on board: going because no seat is left is always safe. */
  lemma LeavesSomebodyStandingIff(run: seq<State>, i: nat)
    requires Run(run) && i < |run| && HolderPc(run[i]) == Some(TTest)
    requires !(run[i].seatNum > 0 && run[i].waiting > 0)
    ensures Standing(run[i].pc) == 0 <==> run[i].boarded + run[i].late == 0
    ensures run[i].late == 0 ==>
      (Standing(run[i].pc) > 0 <==> run[i].seatNum > 0 && run[i].waiting <= 0 && run[i].boarded > 0)
  {
    InvInAnyRun(run, i);
    assert AtPlatform(run[i].pc[run[i].lock.value]);
  }

  /** Nothing but a departure changes how many have been left behind, and it leaves those then standing. */
  lemma LeftBehindAtDepartures(s: State, t: Tid, w: Tid)
    requires Enabled(s, t, w) && Inv(s)
    ensures Step(s, t, w).late == if s.pc[t] == TZeroBoard then s.boarded + s.late else s.late
  {
  }

  // ---------------------------------------------------------------- when a sleeping train is woken

  ghost predicate TrainAsleep(s: State) { exists t :: 0 <= t < |s.pc| && s.pc[t] == TAsleep }

  /** A waiting passenger has been woken and has not run since. */
  ghost predicate SomebodyWoken(s: State) { exists t :: 0 <= t < |s.pc| && s.pc[t] == WWoken }

  /** Every sleeper is on its list. */
  ghost predicate SleepersListed(s: State) {
    && (forall t :: 0 <= t < |s.pc| && s.pc[t] == TAsleep ==> t in s.condFull)
    && (forall t :: 0 <= t < |s.pc| && s.pc[t] == WAsleep ==> t in s.condTrain)
  }

  ghost predicate WaitingCounted(s: State) { s.waiting == Number(s.pc, InLine) }

  /** On the way to a seat, or to sleep because there is none. */
  predicate Busy(p: Pc) { p.WTest? || p.WTake? || p.WBoard? || p.BSeat? || p.BSignal? }

  /** What a train counts on when it goes to sleep, with the thread in the monitor, if any, at `p`: there are seats left,
      and unless earlier trains left somebody standing there is a passenger on the way who will end on one. */
  predicate WillHear(p: Pc, asleep: bool, woken: bool, seatNum: int, waiting: int, boarded: int, late: nat) {
    && (p == TBroadcast ==> seatNum > 0 && waiting > 0)
    && (p == TSleep ==> seatNum > 0 && woken)
    && (asleep ==> seatNum > 0 || (seatNum == 0 && p == BSignal))
    && (asleep && late == 0 && !Busy(p) ==> boarded > 0 || woken)
  }

  ghost predicate TrainHeard(s: State) {
    WillHear(if HolderPc(s).Some? then HolderPc(s).value else BDone, TrainAsleep(s), SomebodyWoken(s),
             s.seatNum, s.waiting, s.boarded, s.late)
  }

  ghost predicate Alert(s: State) { SleepersListed(s) && WaitingCounted(s) && TrainHeard(s) }

  /** Statement by statement. */
  lemma StatementHears(s: State, t: Tid, w: Tid, asleep: bool, woken: bool, asleep': bool, woken': bool)
    requires Enabled(s, t, w) && WillHear(s.pc[t], asleep, woken, s.seatNum, s.waiting, s.boarded, s.late)
    requires asleep ==> !IsTrain(s.pc[t]) && s.condFull != {}
    requires asleep' ==> s.pc[t] == TSleep || (asleep && Signalled(s, s.pc[t]) == {})
    requires (woken && s.pc[t] != WWoken) || (s.pc[t] == TBroadcast && s.waiting > 0) ==> woken'
    requires s.late == 0 ==> s.boarded >= 0 && Step(s, t, w).boarded >= 0
    ensures var s' := Step(s, t, w);
      WillHear(NextPc(s, s.pc[t]), asleep', woken', s'.seatNum, s'.waiting, s'.boarded, s'.late)
  {
  }

  lemma OthersAreNoTrain(s: State, t: Tid, w: Tid)
    requires Enabled(s, t, w) && OneTrain(s) && SleepersListed(s) && TrainAsleep(s)
    ensures !IsTrain(s.pc[t]) && s.condFull != {}
  {
    var u :| 0 <= u < |s.pc| && s.pc[u] == TAsleep;
    assert u in s.condFull && u != t;
  }

  /** A signal wakes the only train there is. */
  lemma SignalWakesTrain(s: State, t: Tid, w: Tid)
    requires Enabled(s, t, w) && Queues(s) && OneTrain(s) && Signalled(s, s.pc[t]) != {}
    ensures !TrainAsleep(Step(s, t, w))
  {
    assert s.pc[w] == TAsleep;
    forall u | 0 <= u < |s.pc| ensures Step(s, t, w).pc[u] != TAsleep {
      if u != t && u != w {
        OthersAfter(s, t, w, u);
        assert IsTrain(s.pc[u]) ==> s.pc[u] == TDone;
      }
    }
  }

  lemma AsleepAfter(s: State, t: Tid, w: Tid)
    requires Enabled(s, t, w) && Queues(s) && OneTrain(s)
    ensures TrainAsleep(Step(s, t, w)) ==> s.pc[t] == TSleep || (TrainAsleep(s) && Signalled(s, s.pc[t]) == {})
  {
    var s' := Step(s, t, w);
    if Signalled(s, s.pc[t]) != {} {
      SignalWakesTrain(s, t, w);
    } else if TrainAsleep(s') {
      var u :| 0 <= u < |s'.pc| && s'.pc[u] == TAsleep;
      if u != t {
        OthersAfter(s, t, w, u);
        assert s.pc[u] == TAsleep;
      }
    }
  }

  lemma WokenAfter(s: State, t: Tid, w: Tid)
    requires Enabled(s, t, w) && Queues(s)
    ensures SomebodyWoken(s) && s.pc[t] != WWoken ==> SomebodyWoken(Step(s, t, w))
  {
    if SomebodyWoken(s) && s.pc[t] != WWoken {
      var u :| 0 <= u < |s.pc| && s.pc[u] == WWoken;
      OthersAfter(s, t, w, u);
      assert Step(s, t, w).pc[u] == WWoken;
    }
  }

  /** A broadcast with somebody waiting wakes somebody, if nobody was awake already. */
  lemma BroadcastWakes(s: State, t: Tid, w: Tid)
    requires Enabled(s, t, w) && Exclusion(s) && SleepersListed(s) && WaitingCounted(s)
    requires s.pc[t] == TBroadcast && s.waiting > 0
    ensures SomebodyWoken(Step(s, t, w))
  {
    var u := SomebodyThere(s.pc, InLine);
    assert s.lock == Some(t) && u != t;
    assert s.pc[u] == WAsleep || s.pc[u] == WWoken;
    assert Step(s, t, w).pc[u] == WWoken;
  }

  lemma StepKeepsListed(s: State, t: Tid, w: Tid)
    requires Enabled(s, t, w) && Queues(s) && SleepersListed(s)
    ensures SleepersListed(Step(s, t, w))
  {
    forall u | 0 <= u < |s.pc| && u != t
      ensures (Step(s, t, w).pc[u] == TAsleep ==> u in Step(s, t, w).condFull) &&
              (Step(s, t, w).pc[u] == WAsleep ==> u in Step(s, t, w).condTrain)
    {
      OthersAfter(s, t, w, u);
    }
  }

  lemma StepKeepsWaitingCounted(s: State, t: Tid, w: Tid)
    requires Enabled(s, t, w) && Queues(s) && WaitingCounted(s)
    ensures WaitingCounted(Step(s, t, w))
  {
    NumberStep(s, t, w, InLine);
  }

  lemma StepKeepsHeard(s: State, t: Tid, w: Tid)
    requires Enabled(s, t, w) && Inv(s) && Alert(s)
    ensures TrainHeard(Step(s, t, w))
  {
    var s' := Step(s, t, w);
    HolderMoves(s, t, w);
    AsleepAfter(s, t, w);
    WokenAfter(s, t, w);
    StepKeepsStanding(s, t, w);
    if TrainAsleep(s) {
      OthersAreNoTrain(s, t, w);
    }
    if s.pc[t] == TBroadcast && s.waiting > 0 {
      BroadcastWakes(s, t, w);
    }
    assert s.pc[t] == TZeroBoard ==> s'.boarded == 0;
    StatementHears(s, t, w, TrainAsleep(s), SomebodyWoken(s), TrainAsleep(s'), SomebodyWoken(s'));
  }

  lemma StepKeepsAlert(s: State, t: Tid, w: Tid)
    requires Enabled(s, t, w) && Inv(s) && Alert(s)
    ensures Alert(Step(s, t, w))
  {
    StepKeepsListed(s, t, w);
    StepKeepsWaitingCounted(s, t, w);
    StepKeepsHeard(s, t, w);
  }

  lemma SpuriousWakeupKeepsSleepers(s: State, t: Tid)
    requires SleepersListed(s) && t < |s.pc| && (s.pc[t] == WAsleep || s.pc[t] == TAsleep)
    ensures var s' := SpuriousWakeup(s, t);
      && SleepersListed(s') && (TrainAsleep(s') ==> TrainAsleep(s)) && (SomebodyWoken(s) ==> SomebodyWoken(s'))
  {
    var s' := SpuriousWakeup(s, t);
    if TrainAsleep(s') {
      var u :| 0 <= u < |s'.pc| && s'.pc[u] == TAsleep;
      assert s.pc[u] == TAsleep;
    }
    if SomebodyWoken(s) {
      var u :| 0 <= u < |s.pc| && s.pc[u] == WWoken;
      assert s'.pc[u] == WWoken;
    }
  }

  lemma SpuriousWakeupKeepsAlert(s: State, t: Tid)
    requires Exclusion(s) && Queues(s) && Alert(s) && t < |s.pc| && (s.pc[t] == WAsleep || s.pc[t] == TAsleep)
    ensures Alert(SpuriousWakeup(s, t))
  {
    SpuriousWakeupKeepsSleepers(s, t);
    SpuriousWakeupKeepsPlaces(s, t);
    assert WaitingCounted(SpuriousWakeup(s, t)) by {
      NumberUpdate(s.pc, t, SpuriousWakeup(s, t).pc[t], InLine);
    }
  }

  lemma ArrivalKeepsSleepers(s: State, p: Pc)
    requires SleepersListed(s) && (p == WEnter || p.TEnter?)
    ensures var s' := s.(pc := s.pc + [p]);
      && SleepersListed(s') && (TrainAsleep(s') ==> TrainAsleep(s)) && (SomebodyWoken(s) ==> SomebodyWoken(s'))
  {
    var s' := s.(pc := s.pc + [p]);
    if TrainAsleep(s') {
      var u :| 0 <= u < |s'.pc| && s'.pc[u] == TAsleep;
      assert s.pc[u] == TAsleep;
    }
    if SomebodyWoken(s) {
      var u :| 0 <= u < |s.pc| && s.pc[u] == WWoken;
      assert s'.pc[u] == WWoken;
    }
  }

  lemma ArrivalKeepsAlert(s: State, p: Pc)
    requires Exclusion(s) && Queues(s) && OneTrain(s) && Alert(s) && (p == WEnter || (p.TEnter? && NoTrain(s.pc)))
    ensures Alert(s.(pc := s.pc + [p]))
  {
    ArrivalKeepsSleepers(s, p);
    ArrivalKeepsPlaces(s, p);
    assert WaitingCounted(s.(pc := s.pc + [p])) by {
      assert (s.pc + [p])[..|s.pc|] == s.pc;
    }
  }

  lemma NextKeepsAlert(s: State, s': State)
    requires Inv(s) && Alert(s) && Next(s, s')
    ensures Alert(s')
  {
    if s' == PassengerArrives(s) {
      ArrivalKeepsAlert(s, WEnter);
    } else if TrainEnters(s, s') {
      var count: nat :| s' == TrainArrives(s, count);
      ArrivalKeepsAlert(s, TEnter(count));
    } else if WakesByItself(s, s') {
      var t: Tid :| t < |s.pc| && (s.pc[t] == WAsleep || s.pc[t] == TAsleep) && s' == SpuriousWakeup(s, t);
      SpuriousWakeupKeepsAlert(s, t);
    } else {
      var t, w :| Enabled(s, t, w) && s' == Step(s, t, w);
      StepKeepsAlert(s, t, w);
    }
  }

  lemma {:induction false} AlertInAnyRun(run: seq<State>, i: nat)
    requires Run(run) && i < |run|
    ensures Inv(run[i]) && Alert(run[i])
  {
    InvInAnyRun(run, i);
    if i == 0 {
      StartsAlert();
    } else {
      AlertInAnyRun(run, i - 1);
      NextKeepsAlert(run[i - 1], run[i]);
    }
  }

  lemma StartsAlert()
    ensures Alert(INITIAL)
  {
  }

  /** When the last passenger to sit down signals: just when the seats are all taken or no train has left anybody standing.
      A sleeping train is then woken, and otherwise not. */
  lemma LastToSitSignalsIff(run: seq<State>, i: nat)
    requires Run(run) && i < |run| && HolderPc(run[i]) == Some(BSignal) && Standing(run[i].pc) == 0
    ensures run[i].seatNum == 0 || run[i].boarded == 0 <==> run[i].seatNum == 0 || run[i].late == 0
    ensures TrainAsleep(run[i]) ==> (Signalled(run[i], BSignal) != {} <==> run[i].seatNum == 0 || run[i].late == 0)
  {
    AlertInAnyRun(run, i);
    if TrainAsleep(run[i]) {
      OthersAreNoTrain(run[i], run[i].lock.value, SomeTrain(run[i].condFull));
    }
  }

  /** No thread can run. */
  ghost predicate Quiescent(s: State) {
    forall t, w :: !Enabled(s, t, w)
  }

  ghost function SomeTrain(ts: set<Tid>): (t: Tid)
    ensures ts != {} ==> t in ts
  {
    if ts == {} then 0 else var t :| t in ts; t
  }

  lemma QuiescentThreadsAtRest(s: State, t: Tid)
    requires Exclusion(s) && Queues(s) && Quiescent(s) && t < |s.pc|
    ensures s.lock == None && (s.pc[t] == WAsleep || s.pc[t] == BDone || s.pc[t] == TAsleep || s.pc[t] == TDone)
  {
    if s.lock.Some? {
      var h := s.lock.value;
      assert !Enabled(s, h, SomeTrain(Signalled(s, s.pc[h])));
    }
    assert !Enabled(s, t, SomeTrain(Signalled(s, s.pc[t])));
  }

  /** When nothing can run any more: a train is still at the station exactly when it has seats left, and that happens only
      if an earlier one left somebody standing. If none did, every train has gone. */
  lemma QuiescentStation(run: seq<State>)
    requires Run(run) && Quiescent(run[|run| - 1])
    ensures var s := run[|run| - 1];
      && (TrainAsleep(s) <==> s.seatNum > 0)
      && (s.late == 0 ==> !TrainAsleep(s) && NoTrain(s.pc))
      && s.boarded + s.late == 0 && (!TrainAsleep(s) ==> s.seatNum + s.late == 0)
  {
    var s := run[|run| - 1];
    AlertInAnyRun(run, |run| - 1);
    forall t: Tid | t < |s.pc| ensures s.lock == None && (s.pc[t] == WAsleep || s.pc[t] == BDone || s.pc[t] == TAsleep || s.pc[t] == TDone) {
      QuiescentThreadsAtRest(s, t);
    }
    assert s.pc == [] ==> s.lock == None;
    if Standing(s.pc) > 0 {
      var u := SomebodyThere(s.pc, OnFoot);
      assert false;
    }
  }

  // ---------------------------------------------------------------- what a departing train does not wait for

  /** `P` holds at the start and every step keeps it, so it holds of whatever can be reached. */
  ghost predicate Inductive(P: State -> bool) {
    P(INITIAL) && forall s, s' :: P(s) && Next(s, s') ==> P(s')
  }

  /** `t` runs its next statement and takes `s` to `s'`; `w` is the train it wakes, if it wakes one. */
  lemma Go(P: State -> bool, s: State, t: Tid, w: Tid, s': State)
    requires Inductive(P) && P(s) && Enabled(s, t, w) && s' == Step(s, t, w)
    ensures P(s')
  {
    assert OneStep(s, s');
  }

  /** A new passenger is at the test in its loop. */
  function AtTest(s: State): State {
    s.(pc := s.pc + [WTest], waiting := s.waiting + 1, lock := Some(|s.pc|))
  }

  lemma ComesToTest(P: State -> bool, s: State)
    requires Inductive(P) && P(s) && s.lock == None
    ensures P(AtTest(s))
  {
    var t := |s.pc|;
    var s0 := PassengerArrives(s);
    var s1 := s0.(pc := s0.pc[t := WCount], lock := Some(t));
    assert P(s1) by {
      assert Next(s, s0);
      Go(P, s0, t, 0, s1);
    }
    assert s1.pc[t := WTest] == AtTest(s).pc;
    Go(P, s1, t, 0, AtTest(s));
  }

  /** From the test to the way out, with a seat free. */
  function ThroughTurnstile(s: State, t: Tid): State
    requires t < |s.pc|
  {
    s.(pc := s.pc[t := BEnter], waiting := s.waiting - 1, boarded := s.boarded + 1,
       boardings := s.boardings + 1, lock := None)
  }

  lemma Turnstile(P: State -> bool, s: State, t: Tid)
    requires Inductive(P) && P(s) && t < |s.pc| && s.pc[t] == WTest && s.boarded != s.seatNum
    ensures P(ThroughTurnstile(s, t))
  {
    var s1 := s.(pc := s.pc[t := WTake], lock := Some(t));
    var s2 := s.(pc := s.pc[t := WBoard], lock := Some(t), waiting := s.waiting - 1);
    var s3 := ThroughTurnstile(s, t).(pc := s.pc[t := WLeave], lock := Some(t));
    assert P(s1) by { Go(P, s, t, 0, s1); }
    assert P(s2) by { Go(P, s1, t, 0, s2); }
    assert P(s3) by { Go(P, s2, t, 0, s3); }
    Go(P, s3, t, 0, ThroughTurnstile(s, t));
  }

  /** A passenger sits down and is about to see whether to signal. */
  function Seated(s: State, t: Tid): State
    requires t < |s.pc|
  {
    s.(pc := s.pc[t := BSignal], seatNum := s.seatNum - 1, boarded := s.boarded - 1, lock := Some(t))
  }

  lemma Sits(P: State -> bool, s: State, t: Tid)
    requires Inductive(P) && P(s) && s.lock == None && t < |s.pc| && s.pc[t] == BEnter
    ensures P(Seated(s, t))
  {
    var s1 := s.(pc := s.pc[t := BBoard], lock := Some(t));
    var s2 := s.(pc := s.pc[t := BSeat], boarded := s.boarded - 1, lock := Some(t));
    assert P(s1) by { Go(P, s, t, 0, s1); }
    assert P(s2) by { assert s1.pc[t := BSeat] == s2.pc; Go(P, s1, t, 0, s2); }
    assert s2.pc[t := BSignal] == Seated(s, t).pc;
    Go(P, s2, t, 0, Seated(s, t));
  }

  /** The last passenger standing sits down and wakes the train. */
  lemma SitsDown(P: State -> bool, s: State, t: Tid, w: Tid, s': State)
    requires Inductive(P) && P(s) && s.lock == None && t < |s.pc| && s.pc[t] == BEnter && s.boarded == 1
    requires s.condFull == {w} && w < |s.pc| && w != t
    requires s' == s.(pc := s.pc[w := TWoken][t := BDone], seatNum := s.seatNum - 1, boarded := 0, condFull := {})
    ensures P(s')
  {
    var s1 := Seated(s, t);
    var s2 := s'.(pc := s.pc[w := TWoken][t := BLeave], lock := Some(t));
    Sits(P, s, t);
    assert P(s2) by {
      assert s1.pc[w := TWoken][t := BLeave] == s2.pc;
      Go(P, s1, t, w, s2);
    }
    assert s2.pc[t := BDone] == s'.pc;
    Go(P, s2, t, 0, s');
  }

  /** With neither counter at zero nobody is signalled. */
  lemma SitsUnsignalled(P: State -> bool, s: State, t: Tid, s': State)
    requires Inductive(P) && P(s) && s.lock == None && t < |s.pc| && s.pc[t] == BEnter
    requires s.boarded != 1 && s.seatNum != 1
    requires s' == s.(pc := s.pc[t := BDone], seatNum := s.seatNum - 1, boarded := s.boarded - 1)
    ensures P(s')
  {
    var s1 := Seated(s, t);
    var s2 := s'.(pc := s.pc[t := BLeave], lock := Some(t));
    Sits(P, s, t);
    assert P(s2) by { assert s1.pc[t := BLeave] == s2.pc; Go(P, s1, t, 0, s2); }
    assert s2.pc[t := BDone] == s'.pc;
    Go(P, s2, t, 0, s');
  }

  /** A train of `count` seats has pulled in with passenger `q` waiting, woken it, and gone to sleep. */
  function PulledIn(s: State, q: Tid, count: nat): State
    requires q < |s.pc|
  {
    s.(seatNum := s.seatNum + count, condFull := s.condFull + {|s.pc|}, condTrain := {},
       pc := s.pc[q := WWoken] + [TAsleep], seats := count, boardings := 0)
  }

  /** A train of `count` seats is at the test in its loop. */
  function TrainAtTest(s: State, count: nat): State {
    s.(seatNum := s.seatNum + count, seats := count, boardings := 0, lock := Some(|s.pc|), pc := s.pc + [TTest])
  }

  lemma TrainComesToTest(P: State -> bool, s: State, count: nat)
    requires Inductive(P) && P(s) && s.lock == None && NoTrain(s.pc)
    ensures P(TrainAtTest(s, count))
  {
    var t := |s.pc|;
    var s1 := TrainArrives(s, count);
    var s2 := s.(pc := s.pc + [TAdd(count)], lock := Some(t));
    assert P(s1) by { assert TrainEnters(s, s1); }
    assert P(s2) by { assert s1.pc[t := TAdd(count)] == s2.pc; Go(P, s1, t, 0, s2); }
    assert s2.pc[t := TTest] == TrainAtTest(s, count).pc;
    Go(P, s2, t, 0, TrainAtTest(s, count));
  }

  /** It wakes everyone and sleeps. */
  lemma WakesAndSleeps(P: State -> bool, s: State, q: Tid, t: Tid, s': State)
    requires Inductive(P) && P(s) && q < t && |s.pc| == t + 1 && s.pc[t] == TTest && s.lock == Some(t)
    requires s.condTrain == {q} && s.waiting > 0 && s.seatNum > 0
    requires s' == s.(pc := s.pc[q := WWoken][t := TAsleep], lock := None, condTrain := {}, condFull := s.condFull + {t})
    ensures P(s')
  {
    var s1 := s.(pc := s.pc[t := TBroadcast]);
    var s2 := s.(pc := s.pc[q := WWoken][t := TSleep], condTrain := {});
    assert P(s1) by { Go(P, s, t, 0, s1); }
    assert P(s2) by { assert WakeAll(s1.pc, s1.condTrain)[t := TSleep] == s2.pc; Go(P, s1, t, 0, s2); }
    assert s2.pc[t := TAsleep] == s'.pc;
    Go(P, s2, t, 0, s');
  }

  lemma PullsIn(P: State -> bool, s: State, q: Tid, count: nat)
    requires Inductive(P) && P(s) && s.lock == None && NoTrain(s.pc)
    requires q < |s.pc| && s.condTrain == {q} && s.waiting > 0 && s.seatNum + count > 0
    ensures P(PulledIn(s, q, count))
  {
    TrainComesToTest(P, s, count);
    assert (s.pc + [TTest])[q := WWoken][|s.pc| := TAsleep] == s.pc[q := WWoken] + [TAsleep];
    WakesAndSleeps(P, TrainAtTest(s, count), q, |s.pc|, PulledIn(s, q, count));
  }

  /** A woken train that finds nobody waiting leaves. */
  lemma Departs(P: State -> bool, s: State, t: Tid)
    requires Inductive(P) && P(s) && s.lock == None && t < |s.pc| && s.pc[t] == TWoken && s.waiting == 0
    ensures P(s.(pc := s.pc[t := TDone], seatNum := 0, boarded := 0, late := Standing(s.pc)))
  {
    var s1 := s.(pc := s.pc[t := TTest], lock := Some(t));
    var s2 := s.(pc := s.pc[t := TZeroSeat], lock := Some(t));
    assert P(s1) by { Go(P, s, t, 0, s1); }
    assert P(s2) by { assert s1.pc[t := TZeroSeat] == s2.pc; Go(P, s1, t, 0, s2); }
    NumberUpdate(s.pc, t, TZeroSeat, OnFoot);
    ClearsCounters(P, s2, t, s.(pc := s.pc[t := TDone], seatNum := 0, boarded := 0, late := Standing(s.pc)));
  }

  lemma ClearsCounters(P: State -> bool, s: State, t: Tid, s': State)
    requires Inductive(P) && P(s) && s.lock == Some(t) && t < |s.pc| && s.pc[t] == TZeroSeat
    requires s' == s.(pc := s.pc[t := TDone], seatNum := 0, boarded := 0, late := Standing(s.pc), lock := None)
    ensures P(s')
  {
    NumberUpdate(s.pc, t, TZeroBoard, OnFoot);
    var s1 := s.(pc := s.pc[t := TZeroBoard], seatNum := 0);
    var s2 := s'.(pc := s.pc[t := TLeave], lock := Some(t));
    assert P(s1) by { Go(P, s, t, 0, s1); }
    assert P(s2) by { assert s1.pc[t := TLeave] == s2.pc; Go(P, s1, t, 0, s2); }
    assert s2.pc[t := TDone] == s'.pc;
    Go(P, s2, t, 0, s');
  }

  /** Two passengers: the first sits in the last train's seat, the second stands. */
  const LEFT_STANDING: State := State(0, 0, 0, None, {}, {}, [BDone, TDone, BEnter], 2, 2, 1)

  lemma StandsAlone(a: Pc, b: Pc)
    requires !IsStanding(a) && !IsStanding(b)
    ensures Standing([a, b, BEnter]) == 1
  {
    NumberUpdate([a, b, a], 2, BEnter, OnFoot);
    NumberSame([a, b, a], [b, b, b], OnFoot);
    assert [b, b, b][..2] == [b, b] && [b, b][..1] == [b] && [b][..0] == [] && Number([b], OnFoot) == 0;
    assert [a, b, a][2 := BEnter] == [a, b, BEnter];
  }

  const WOKEN_BY_FIRST := State(2, 1, 0, None, {1}, {}, [WWoken, TAsleep], 2, 0, 0)

  /** A passenger waits, and a train pulls in and wakes it. */
  lemma FirstTrainPullsIn(P: State -> bool)
    requires Inductive(P)
    ensures P(WOKEN_BY_FIRST)
  {
    var s1 := State(0, 1, 0, None, {}, {0}, [WAsleep], 0, 0, 0);
    assert P(s1) by {
      ComesToTest(P, INITIAL);
      Go(P, AtTest(INITIAL), 0, 0, s1);
    }
    PullsIn(P, s1, 0, 2);
    assert PulledIn(s1, 0, 2) == WOKEN_BY_FIRST;
  }

  /** The passenger boards the train and sits, and the train is about to look. */
  lemma FirstPassengerSits(P: State -> bool)
    requires Inductive(P)
    ensures P(State(1, 0, 0, None, {}, {}, [BDone, TWoken], 2, 1, 0))
  {
    var s3 := State(2, 1, 0, Some(0), {1}, {}, [WTest, TAsleep], 2, 0, 0);
    var s4 := State(2, 0, 1, None, {1}, {}, [BEnter, TAsleep], 2, 1, 0);
    FirstTrainPullsIn(P);
    assert P(s3) by { Go(P, WOKEN_BY_FIRST, 0, 0, s3); }
    assert P(s4) by { Turnstile(P, s3, 0); assert ThroughTurnstile(s3, 0) == s4; }
    SitsDown(P, s4, 0, 1, State(1, 0, 0, None, {}, {}, [BDone, TWoken], 2, 1, 0));
  }

  /** A second one gets through the turnstile before the train has the lock again. The train then leaves without waiting
      for it to sit down: its loop looks only at free seats and waiting passengers. */
  lemma StandingPassengerLeftBehind(P: State -> bool)
    requires Inductive(P)
    ensures P(LEFT_STANDING)
  {
    var s5 := State(1, 0, 0, None, {}, {}, [BDone, TWoken], 2, 1, 0);
    var s6 := State(1, 1, 0, Some(2), {}, {}, [BDone, TWoken, WTest], 2, 1, 0);
    var s7 := State(1, 0, 1, None, {}, {}, [BDone, TWoken, BEnter], 2, 2, 0);
    FirstPassengerSits(P);
    assert P(s6) by { ComesToTest(P, s5); assert AtTest(s5) == s6; }
    assert P(s7) by { Turnstile(P, s6, 2); assert ThroughTurnstile(s6, 2) == s7; }
    StandsAlone(BDone, TWoken);
    Departs(P, s7, 1);
    assert s7.(pc := s7.pc[1 := TDone], seatNum := 0, boarded := 0, late := 1) == LEFT_STANDING;
  }

  /** The next train has three seats and its only passenger has sat down in one of them. */
  const NEVER_SIGNALLED: State :=
    State(1, 0, -1, None, {4}, {}, [BDone, TDone, BDone, BDone, TAsleep], 3, 1, 1)

  const WOKEN_BY_NEXT := State(2, 1, -1, None, {4}, {}, [BDone, TDone, BDone, WWoken, TAsleep], 3, 0, 1)

  /** The passenger left behind sits down, another one waits, and the next train wakes it. */
  lemma NextTrainPullsIn(P: State -> bool)
    requires Inductive(P)
    ensures P(WOKEN_BY_NEXT)
  {
    var s1 := State(-1, 0, -1, None, {}, {}, [BDone, TDone, BDone], 2, 2, 1);
    var s2 := State(-1, 1, -1, None, {}, {3}, [BDone, TDone, BDone, WAsleep], 2, 2, 1);
    assert P(s1) by {
      StandingPassengerLeftBehind(P);
      SitsUnsignalled(P, LEFT_STANDING, 2, s1);
    }
    assert P(s2) by {
      ComesToTest(P, s1);
      assert AtTest(s1).pc[3 := WAsleep] == s2.pc;
      Go(P, AtTest(s1), 3, 0, s2);
    }
    PullsIn(P, s2, 3, 3);
    assert PulledIn(s2, 3, 3) == WOKEN_BY_NEXT;
  }

  /** The passenger left behind takes both counters below zero. The next train's only passenger then finds neither at
      zero when it sits down, and does not signal. */
  lemma NextTrainNotSignalled(P: State -> bool)
    requires Inductive(P)
    ensures P(NEVER_SIGNALLED)
  {
    var s4 := WOKEN_BY_NEXT.(pc := [BDone, TDone, BDone, WTest, TAsleep], lock := Some(3));
    var s5 := State(2, 0, 0, None, {4}, {}, [BDone, TDone, BDone, BEnter, TAsleep], 3, 1, 1);
    NextTrainPullsIn(P);
    assert P(s4) by { Go(P, WOKEN_BY_NEXT, 3, 0, s4); }
    assert P(s5) by { Turnstile(P, s4, 3); assert ThroughTurnstile(s4, 3) == s5; }
    SitsUnsignalled(P, s5, 3, NEVER_SIGNALLED);
  }

  /** Some run ends in `s`. */
  ghost predicate Reachable(s: State) {
    exists run :: Run(run) && run[|run| - 1] == s
  }

  lemma ReachableIsInductive()
    ensures Inductive(s => Reachable(s))
  {
    assert Run([INITIAL]) && Reachable(INITIAL);
    forall s, s' | Reachable(s) && Next(s, s') ensures Reachable(s') {
      var r :| Run(r) && r[|r| - 1] == s;
      assert Run(r + [s']);
    }
  }

  /** So some run ends with the train gone and a passenger it let through not yet seated. */
  lemma TrainLeavesStandingPassenger()
    ensures Reachable(LEFT_STANDING) && NoTrain(LEFT_STANDING.pc)
    ensures LEFT_STANDING.pc[2] == BEnter && LEFT_STANDING.boardings == 2
  {
    ReachableIsInductive();
    StandingPassengerLeftBehind(s => Reachable(s));
  }

  /** And some run ends with the next train asleep, its seats not full, nobody waiting or on board, and no thread able
      to run. */
  lemma TrainLeftAsleep()
    ensures Reachable(NEVER_SIGNALLED) && NEVER_SIGNALLED.waiting == 0 && NEVER_SIGNALLED.pc[4] == TAsleep
    ensures forall t, w :: !Enabled(NEVER_SIGNALLED, t, w)
  {
    ReachableIsInductive();
    NextTrainNotSignalled(s => Reachable(s));
  }
}
