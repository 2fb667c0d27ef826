/** The multi-level feedback scheduler's accounting, in 17.14 fixed point on 32-bit integers. */
module Mlfqs {
  import opened Common

  const LONG_MAX := 0x7FFF_FFFF_FFFF_FFFF

  type int32 = x: int | -INT_MAX - 1 <= x <= INT_MAX
  type int64 = x: int | -LONG_MAX - 1 <= x <= LONG_MAX

  const F := 0x4000                // 1.0 in 17.14 fixed point
  const TIMER_FREQ := 100
  const PRI_MAX := 63
  const PRI_MIN := 0
  const NICE_MAX := 20

  /** The most runnable threads for which the accounting provably stays within 32 bits. */
  const MAX_RUNNABLE := 545

  // ---------------------------------------------------------------- fixed-point arithmetic

  // Each operation demands that its exact result fits the type the C expression has, so every use below is
  // proved free of overflow.

  /** C's division: rounds toward zero. */
  function Quotient(x: int, y: int): (q: int)
    requires y > 0
    ensures Abs(q) * y <= Abs(x) < Abs(q) * y + y
    ensures x >= 0 ==> q >= 0
    ensures x <= 0 ==> q <= 0
    ensures Abs(q) <= Abs(x)
  {
    QuotientAtMost(Abs(x), y);
    if x >= 0 then x / y else -(-x / y)
  }

  function FromInt(n: int): int32
    requires -INT_MAX <= n * F <= INT_MAX
  {
    n * F
  }

  function ToNearest(x: int32): (n: int32)
    requires -INT_MAX + F / 2 <= x <= INT_MAX - F / 2
    ensures n * F - F / 2 <= x <= n * F + F / 2
  {
    if x >= 0 then Quotient(x + F / 2, F) else Quotient(x - F / 2, F)
  }

  function Plus(x: int32, y: int32): int32
    requires -INT_MAX <= x + y <= INT_MAX
  {
    x + y
  }

  function PlusInt(x: int32, n: int): int32
    requires -INT_MAX <= x + n * F <= INT_MAX && -INT_MAX <= n * F <= INT_MAX
  {
    x + n * F
  }

  function TimesInt(x: int32, n: int): int32
    requires -INT_MAX <= x * n <= INT_MAX
  {
    x * n
  }

  function DividedByInt(x: int32, n: int): (r: int32)
    requires n > 0
    ensures Abs(r) * n <= Abs(x) < Abs(r) * n + n && (x >= 0 ==> r >= 0) && (x <= 0 ==> r <= 0)
  {
    Quotient(x, n)
  }

  /** `x / y` of two fixed-point numbers, computed in 64 bits. */
  function Divided(x: int32, y: int32): (r: int64)
    requires y > 0
    ensures Abs(r) * y <= Abs(x) * F < Abs(r) * y + y && (x >= 0 ==> r >= 0)
  {
    Quotient(x * F, y)
  }

  /** `x * y` of two fixed-point numbers, computed in 64 bits. */
  function Times(x: int64, y: int32): (r: int64)
    requires -LONG_MAX <= x * y <= LONG_MAX
    ensures Abs(r) * F <= Abs(x * y) && (x * y >= 0 ==> r >= 0) && (x * y <= 0 ==> r <= 0)
  {
    Quotient(x * y, F)
  }

  // ---------------------------------------------------------------- the three formulas

  /** load_avg = 59/60 * load_avg + 1/60 * ready. */
  function LoadAvg(loadAvg: int32, ready: nat, ghost n: nat): (r: int32)
    requires 0 <= loadAvg <= n * F && ready <= n <= MAX_RUNNABLE
    ensures 0 <= r <= n * F
  {
    Plus(DividedByInt(TimesInt(loadAvg, 59), 60), DividedByInt(FromInt(ready), 60))
  }

  /** The decay 2*load_avg / (2*load_avg + 1) is at most 2n / (2n + 1). */
  lemma DecayBound(loadAvg: int, c: nat, n: nat)
    requires 0 <= loadAvg <= n * F && c * (2 * loadAvg + F) <= 2 * loadAvg * F
    ensures c * (2 * n + 1) <= 2 * n * F && c <= F
  {
    if c > F {
      MulLe(F + 1, c, 2 * loadAvg + F);
      assert false;
    } else {
      assert c * F <= 2 * loadAvg * (F - c) by {
        assert c * (2 * loadAvg + F) == 2 * loadAvg * c + c * F;
        assert 2 * loadAvg * (F - c) == 2 * loadAvg * F - 2 * loadAvg * c;
      }
      assert loadAvg * (F - c) <= n * F * (F - c);
      assert n * F * (F - c) == F * (n * (F - c));
      assert c <= 2 * (n * (F - c));
      assert n * (F - c) == n * F - n * c;
    }
  }

  /** What is left of a value after one decay: a value within `k * (2n + 1)` comes to within `2 * n * k`. */
  lemma DecayedBound(c: nat, x: int, t: int, n: nat, k: nat)
    requires c * (2 * n + 1) <= 2 * n * F && Abs(x) <= k * ((2 * n + 1) * F) && Abs(t) * F <= Abs(c * x)
    ensures Abs(t) <= 2 * n * k * F
  {
    Magnitude(c, x);
    MulLe(Abs(x), k * ((2 * n + 1) * F), c);
    assert c * (k * ((2 * n + 1) * F)) == k * F * (c * (2 * n + 1));
    MulLe(c * (2 * n + 1), 2 * n * F, k * F);
    assert k * F * (2 * n * F) == 2 * n * k * F * F;
  }

  lemma Magnitude(c: nat, x: int)
    ensures Abs(c * x) == c * Abs(x)
  {
  }

  /** The greatest value a recomputed `recent_cpu` can have with at most `n` runnable threads. */
  function Ceiling(n: nat): int { (240 * n + 20) * F }

  /** The least value it can have. */
  function Floor(n: nat): int { -(20 * (2 * n + 1)) * F }

  /** recent_cpu = (2*load_avg)/(2*load_avg + 1) * recent_cpu + nice. A second's worth of ticks above the ceiling
      decays to below it again. */
  function RecentCpu(loadAvg: int32, recentCpu: int32, nice: int, ghost n: nat): (r: int32)
    requires n <= MAX_RUNNABLE && 0 <= loadAvg <= n * F && -NICE_MAX <= nice <= NICE_MAX
    requires Floor(n) <= recentCpu <= Ceiling(n) + TIMER_FREQ * F
    ensures Floor(n) <= r <= Ceiling(n)
  {
    var decay := Divided(TimesInt(loadAvg, 2), PlusInt(TimesInt(loadAvg, 2), 1));
    DecayBound(loadAvg, decay, n);
    ProductFits(decay, recentCpu);
    var decayed := Times(decay, recentCpu);
    DecayedInRange(decay, recentCpu, decayed, n);
    decayed + FromInt(nice)
  }

  lemma ProductFits(c: nat, x: int32)
    requires c <= F
    ensures Abs(c * x) <= LONG_MAX
  {
    Magnitude(c, x);
    MulLe(Abs(x), INT_MAX + 1, c);
  }

  lemma DecayedInRange(c: nat, x: int, t: int, n: nat)
    requires c * (2 * n + 1) <= 2 * n * F && Abs(t) * F <= Abs(c * x)
    requires (c * x >= 0 ==> t >= 0) && (c * x <= 0 ==> t <= 0)
    requires Floor(n) <= x <= Ceiling(n) + TIMER_FREQ * F
    ensures Floor(n) + NICE_MAX * F <= t <= Ceiling(n) - NICE_MAX * F
  {
    if x >= 0 {
      DecayedBound(c, x, t, n, 120);
      MulLe(0, x, c);
    } else {
      DecayedBound(c, x, t, n, 20);
      MulLe(x, 0, c);
    }
  }

  /** priority = PRI_MAX - recent_cpu / 4 - nice * 2, clamped. */
  function Priority(recentCpu: int32, nice: int): (p: int)
    requires -NICE_MAX <= nice <= NICE_MAX
    ensures PRI_MIN <= p <= PRI_MAX
  {
    var p := PRI_MAX - ToNearest(DividedByInt(recentCpu, 4)) - nice * 2;
    var p1 := if p > PRI_MAX then PRI_MAX else p;
    if p1 < PRI_MIN then PRI_MIN else p1
  }

  lemma Brackets(x: int, y: int, d: int, a: int, b: int)
    requires x <= y && d > 0 && a * d <= x && y < b * d + d
    ensures a <= b
  {
    if a > b {
      MulLe(b + 1, a, d);
      assert false;
    }
  }

  lemma QuotientMonotone(x: int, y: int, d: int)
    requires x <= y && d > 0
    ensures Quotient(x, d) <= Quotient(y, d)
  {
    var a, b := Quotient(x, d), Quotient(y, d);
    if x >= 0 {
      Brackets(x, y, d, a, b);
    } else if y <= 0 {
      Brackets(-y, -x, d, -b, -a);
    }
  }

  lemma NearestMonotone(x: int32, y: int32)
    requires x <= y && -INT_MAX + F / 2 <= x && y <= INT_MAX - F / 2
    ensures ToNearest(x) <= ToNearest(y)
  {
    if x >= 0 {
      QuotientMonotone(x + F / 2, y + F / 2, F);
    } else if y < 0 {
      QuotientMonotone(x - F / 2, y - F / 2, F);
    }
  }

  /** A thread that has used more of the processor, or is nicer, never gets a higher priority. */
  lemma PriorityFalls(c: int32, c': int32, nice: int, nice': int)
    requires c <= c' && -NICE_MAX <= nice <= nice' <= NICE_MAX
    ensures Priority(c', nice') <= Priority(c, nice)
  {
    QuotientMonotone(c, c', 4);
    NearestMonotone(DividedByInt(c, 4), DividedByInt(c', 4));
  }

  // ---------------------------------------------------------------- what the formulas come to

  // In 17.14 numbers, where 16384 stands for 1, and without the operations above.

  /** `r` is (59 * load_avg + ready) / 60, rounded down by less than two units. */
  predicate IsLoad(loadAvg: int, ready: nat, r: int) {
    60 * r <= 59 * loadAvg + ready * 16384 < 60 * r + 120
  }

  /** `t` is 2 * load_avg * x / (2 * load_avg + 1), rounded toward zero by less than |x| / 16384 + 1 units. */
  predicate IsDecay(loadAvg: int, x: int, t: int) {
    && (x >= 0 ==> t >= 0) && (x <= 0 ==> t <= 0)
    && Abs(t) * (2 * loadAvg + 16384) <= 2 * loadAvg * Abs(x)
    && 2 * loadAvg * Abs(x) * 16384 < (Abs(t) * 16384 + Abs(x) + 16384) * (2 * loadAvg + 16384)
  }

  /** `p` is 63 - c / 4 - 2 * nice, to the nearest integer and cut off at 0 and 63. */
  predicate IsPriority(c: int, nice: int, p: int) {
    && 0 <= p <= 63
    && (p > 0 ==> (63 - 2 * nice - p) * 65536 - c >= -32771)
    && (p < 63 ==> (63 - 2 * nice - p) * 65536 - c <= 32771)
  }

  lemma LoadAvgIs(loadAvg: int32, ready: nat, n: nat)
    requires 0 <= loadAvg <= n * F && ready <= n <= MAX_RUNNABLE
    ensures IsLoad(loadAvg, ready, LoadAvg(loadAvg, ready, n))
  {
  }

  /** A niceness is added to what has decayed, so a greater one never gives less. */
  lemma RecentCpuIs(loadAvg: int32, x: int32, nice: int, n: nat)
    requires n <= MAX_RUNNABLE && 0 <= loadAvg <= n * F && -NICE_MAX <= nice <= NICE_MAX
    requires Floor(n) <= x <= Ceiling(n) + TIMER_FREQ * F
    ensures IsDecay(loadAvg, x, RecentCpu(loadAvg, x, nice, n) - nice * 16384)
  {
    var l, d := 2 * loadAvg, 2 * loadAvg + F;
    var c := Divided(TimesInt(loadAvg, 2), PlusInt(TimesInt(loadAvg, 2), 1));
    DecayBound(loadAvg, c, n);
    ProductFits(c, x);
    var t := Times(c, x);
    Magnitude(c, x);
    MulLe(0, Abs(x), c);
    assert RecentCpu(loadAvg, x, nice, n) - nice * 16384 == t;
    DecayIs(l, d, c, Abs(x), Abs(t));
    SignOf(c, x);
  }

  lemma NicenessAdds(loadAvg: int32, x: int32, nice: int, nice': int, n: nat)
    requires n <= MAX_RUNNABLE && 0 <= loadAvg <= n * F && Floor(n) <= x <= Ceiling(n) + TIMER_FREQ * F
    requires -NICE_MAX <= nice <= nice' <= NICE_MAX
    ensures RecentCpu(loadAvg, x, nice', n) == RecentCpu(loadAvg, x, nice, n) + (nice' - nice) * 16384
  {
  }

  lemma SignOf(c: nat, x: int)
    ensures (x >= 0 ==> c * x >= 0) && (x <= 0 ==> c * x <= 0)
  {
  }

  lemma DecayIs(l: nat, d: nat, c: nat, x: nat, t: nat)
    requires c * d <= l * F < c * d + d && t * F <= c * x < t * F + F && d > 0
    ensures t * d <= l * x && l * x * F < (t * F + x + F) * d
  {
    MulLe(t * F, c * x, d);
    MulLe(c * d, l * F, x);
    assert t * d * F <= l * x * F by {
      assert t * F * d == t * d * F && c * x * d == c * d * x && l * F * x == l * x * F;
    }
    Cancel(t * d, l * x, F);
    MulLe(l * F, c * d + d, x);
    MulLe(c * x + 1, t * F + F, d);
    assert l * F * x == l * x * F && (c * d + d) * x == c * x * d + x * d;
    assert (t * F + x + F) * d == (t * F + F) * d + x * d && (c * x + 1) * d == c * x * d + d;
  }

  lemma PriorityIs(c: int32, nice: int)
    requires -NICE_MAX <= nice <= NICE_MAX
    ensures IsPriority(c, nice, Priority(c, nice))
  {
  }

  // ---------------------------------------------------------------- the accounting as a state machine

  datatype Task = Task(recentCpu: int32, nice: int, priority: int)

  /** The threads other than the idle thread. */
  datatype State = State(tasks: seq<Task>, loadAvg: int32, ticks: nat)

  /** What can happen: a timer tick, seen with `running` on the processor (None: the idle thread) and `ready`
      threads in the ready list; a running thread setting its niceness; a thread starting or ending. */
  datatype Event =
    | Tick(running: Option<nat>, ready: nat)
    | SetNice(thread: nat, nice: int)
    | Start(priority: int)
    | End(thread: nat)

  function Sample(e: Event): nat
    requires e.Tick?
  {
    e.ready + if e.running.Some? then 1 else 0
  }

  /** The event can happen in `s` and samples at most `n` runnable threads. */
  predicate Legal(s: State, e: Event, n: nat) {
    match e
    case Tick(running, ready) => (running.Some? ==> running.value < |s.tasks|) && Sample(e) <= n
    case SetNice(thread, nice) => thread < |s.tasks|
    case Start(priority) => PRI_MIN <= priority <= PRI_MAX
    case End(thread) => thread < |s.tasks|
  }

  /** The bounds on one thread, `since` ticks after the last sampling. */
  predicate InBounds(t: Task, since: int, n: nat) {
    && Floor(n) <= t.recentCpu <= Ceiling(n) + since * F
    && -NICE_MAX <= t.nice <= NICE_MAX && PRI_MIN <= t.priority <= PRI_MAX
  }

  predicate AllInBounds(tasks: seq<Task>, since: int, n: nat) {
    forall i :: 0 <= i < |tasks| ==> InBounds(tasks[i], since, n)
  }

  predicate LoadInBounds(loadAvg: int, n: nat) {
    n <= MAX_RUNNABLE && 0 <= loadAvg <= n * F
  }

  predicate Bounded(s: State, n: nat) {
    LoadInBounds(s.loadAvg, n) && AllInBounds(s.tasks, s.ticks % TIMER_FREQ, n)
  }

  /** The tick charges the running thread. */
  function Charged(tasks: seq<Task>, running: Option<nat>, ghost since: int, ghost n: nat): (r: seq<Task>)
    requires n <= MAX_RUNNABLE && 0 <= since < TIMER_FREQ && AllInBounds(tasks, since, n)
    requires running.Some? ==> running.value < |tasks|
    ensures |r| == |tasks| && AllInBounds(r, since + 1, n)
  {
    if running == None then tasks
    else
      var t := tasks[running.value];
      assert InBounds(t, since, n);
      tasks[running.value := t.(recentCpu := PlusInt(t.recentCpu, 1))]
  }

  function Decayed(t: Task, loadAvg: int32, ghost n: nat): (r: Task)
    requires LoadInBounds(loadAvg, n) && InBounds(t, TIMER_FREQ, n)
    ensures InBounds(r, 0, n)
  {
    t.(recentCpu := RecentCpu(loadAvg, t.recentCpu, t.nice, n))
  }

  function Reprioritised(t: Task): Task
    requires -NICE_MAX <= t.nice <= NICE_MAX
  {
    t.(priority := Priority(t.recentCpu, t.nice))
  }

  /** Every thread decays at a sampling tick. */
  function AllDecayed(tasks: seq<Task>, loadAvg: int32, ghost n: nat): (r: seq<Task>)
    requires LoadInBounds(loadAvg, n) && AllInBounds(tasks, TIMER_FREQ, n)
    ensures |r| == |tasks| && AllInBounds(r, 0, n)
  {
    seq(|tasks|, i requires 0 <= i < |tasks| =>
      assert InBounds(tasks[i], TIMER_FREQ, n);
      Decayed(tasks[i], loadAvg, n))
  }

  function AllReprioritised(tasks: seq<Task>, ghost since: int, ghost n: nat): (r: seq<Task>)
    requires AllInBounds(tasks, since, n)
    ensures |r| == |tasks| && AllInBounds(r, since, n)
  {
    seq(|tasks|, i requires 0 <= i < |tasks| =>
      assert InBounds(tasks[i], since, n);
      Reprioritised(tasks[i]))
  }

  function ClampNice(nice: int): int {
    if nice > NICE_MAX then NICE_MAX else if nice < -NICE_MAX then -NICE_MAX else nice
  }

  function AfterTick(s: State, e: Event, ghost n: nat): (r: State)
    requires Bounded(s, n) && e.Tick? && Legal(s, e, n)
    ensures Bounded(r, n)
  {
    var now := s.ticks + 1;
    var since := s.ticks % TIMER_FREQ + 1;
    var sampling := now % TIMER_FREQ == 0;
    assert sampling ==> since == TIMER_FREQ;
    assert !sampling ==> since == now % TIMER_FREQ;
    var charged := Charged(s.tasks, e.running, s.ticks % TIMER_FREQ, n);
    var loadAvg := if sampling then LoadAvg(s.loadAvg, Sample(e), n) else s.loadAvg;
    var decayed := if sampling then AllDecayed(charged, loadAvg, n) else charged;
    var tasks := if now % 4 == 0 then AllReprioritised(decayed, now % TIMER_FREQ, n) else decayed;
    State(tasks, loadAvg, now)
  }

  function AfterSetNice(s: State, e: Event, ghost n: nat): (r: State)
    requires Bounded(s, n) && e.SetNice? && Legal(s, e, n)
    ensures Bounded(r, n)
  {
    var t := s.tasks[e.thread];
    assert InBounds(t, s.ticks % TIMER_FREQ, n);
    s.(tasks := s.tasks[e.thread := Reprioritised(t.(nice := ClampNice(e.nice)))])
  }

  /** Every event keeps the bounds, and none of the 32- or 64-bit operations on the way overflows. */
  function Next(s: State, e: Event, ghost n: nat): (r: State)
    requires Bounded(s, n) && Legal(s, e, n)
    ensures Bounded(r, n)
  {
    match e
    case Tick(running, ready) => AfterTick(s, e, n)
    case SetNice(thread, nice) => AfterSetNice(s, e, n)
    case Start(priority) =>
      assert InBounds(Task(0, 0, priority), s.ticks % TIMER_FREQ, n);
      s.(tasks := s.tasks + [Task(0, 0, priority)])
    case End(thread) =>
      s.(tasks := s.tasks[..thread] + s.tasks[thread + 1..])
  }

  // ---------------------------------------------------------------- what the events come to

  /** The counting, sampling and re-prioritising that a tick does for one thread. */
  predicate TaskTicks(a: Task, b: Task, runs: bool, now: nat, loadAvg: int) {
    var used := a.recentCpu + if runs then 16384 else 0;
    && b.nice == a.nice
    && (if now % 100 == 0 then IsDecay(loadAvg, used, b.recentCpu - a.nice * 16384) else b.recentCpu == used)
    && (if now % 4 == 0 then IsPriority(b.recentCpu, b.nice, b.priority) else b.priority == a.priority)
  }

  /** Only the running thread is charged; once a second the load is sampled and then every thread decays under the new
      one; every fourth tick every thread gets its priority anew. */
  lemma TickIs(s: State, running: Option<nat>, ready: nat, n: nat)
    requires Bounded(s, n) && Legal(s, Tick(running, ready), n)
    ensures var s' := Next(s, Tick(running, ready), n);
      && s'.ticks == s.ticks + 1 && |s'.tasks| == |s.tasks|
      && (if s'.ticks % 100 == 0 then IsLoad(s.loadAvg, ready + (if running.Some? then 1 else 0), s'.loadAvg)
          else s'.loadAvg == s.loadAvg)
      && forall i :: 0 <= i < |s.tasks| ==>
           TaskTicks(s.tasks[i], s'.tasks[i], running == Some(i), s'.ticks, s'.loadAvg)
  {
    var e := Tick(running, ready);
    var s', since := Next(s, e, n), s.ticks % TIMER_FREQ;
    var charged := Charged(s.tasks, running, since, n);
    if s'.ticks % 100 == 0 {
      LoadAvgIs(s.loadAvg, Sample(e), n);
    }
    forall i | 0 <= i < |s.tasks| ensures TaskTicks(s.tasks[i], s'.tasks[i], running == Some(i), s'.ticks, s'.loadAvg) {
      assert InBounds(charged[i], since + 1, n) && InBounds(s'.tasks[i], s'.ticks % TIMER_FREQ, n);
      if s'.ticks % 100 == 0 {
        RecentCpuIs(s'.loadAvg, charged[i].recentCpu, charged[i].nice, n);
      }
      PriorityIs(s'.tasks[i].recentCpu, s'.tasks[i].nice);
    }
  }

  /** Setting a niceness takes the nearest one allowed, and the priority that goes with it at once. */
  lemma SetNiceIs(s: State, thread: nat, nice: int, n: nat)
    requires Bounded(s, n) && thread < |s.tasks|
    ensures var s' := Next(s, Event.SetNice(thread, nice), n);
      && s'.loadAvg == s.loadAvg && s'.ticks == s.ticks && |s'.tasks| == |s.tasks|
      && (forall i :: 0 <= i < |s.tasks| && i != thread ==> s'.tasks[i] == s.tasks[i])
      && var t := s'.tasks[thread];
      && t.recentCpu == s.tasks[thread].recentCpu && IsPriority(t.recentCpu, t.nice, t.priority)
      && t.nice == (if nice > 20 then 20 else if nice < -20 then -20 else nice)
  {
    var s' := Next(s, Event.SetNice(thread, nice), n);
    assert InBounds(s'.tasks[thread], s.ticks % TIMER_FREQ, n);
    PriorityIs(s'.tasks[thread].recentCpu, s'.tasks[thread].nice);
  }

  /** A thread starts unused and neutral, with the priority asked for, and one that ends leaves the others as they are. */
  lemma ComingAndGoing(s: State, e: Event, n: nat)
    requires Bounded(s, n) && Legal(s, e, n) && (e.Start? || e.End?)
    ensures var s' := Next(s, e, n);
      && s'.loadAvg == s.loadAvg && s'.ticks == s.ticks
      && (e.Start? ==> s'.tasks == s.tasks + [Task(0, 0, e.priority)])
      && (e.End? ==> s.tasks == s'.tasks[..e.thread] + [s.tasks[e.thread]] + s'.tasks[e.thread..])
  {
  }

  // ---------------------------------------------------------------- whole runs

  const BOOT := State([], 0, 0)

  /** `run` starts at boot, every step is one legal event, and no sampling ever counts more than `n` threads. */
  ghost predicate IsRun(run: seq<State>, events: seq<Event>, n: nat) {
    && n <= MAX_RUNNABLE && |run| == |events| + 1 && run[0] == BOOT
    && forall i :: 0 <= i < |events| ==> IsStep(run[i], events[i], run[i + 1], n)
  }

  ghost predicate IsStep(s: State, e: Event, s': State, n: nat) {
    Legal(s, e, n) && (Bounded(s, n) ==> s' == Next(s, e, n))
  }

  /** In a run of any length load_avg stays in [0, n], recent_cpu within 120 * (2n + 1) either way, and every
      priority in [0, 63]. */
  lemma {:induction false} BoundsInAnyRun(run: seq<State>, events: seq<Event>, n: nat, i: nat)
    requires IsRun(run, events, n) && i < |run|
    ensures Bounded(run[i], n)
    ensures 0 <= run[i].loadAvg <= n * F
    ensures forall j :: 0 <= j < |run[i].tasks| ==>
      Abs(run[i].tasks[j].recentCpu) <= 120 * (2 * n + 1) * F && PRI_MIN <= run[i].tasks[j].priority <= PRI_MAX
  {
    if i > 0 {
      BoundsInAnyRun(run, events, n, i - 1);
      assert IsStep(run[i - 1], events[i - 1], run[i], n);
    }
    forall j | 0 <= j < |run[i].tasks|
      ensures Abs(run[i].tasks[j].recentCpu) <= 120 * (2 * n + 1) * F && PRI_MIN <= run[i].tasks[j].priority <= PRI_MAX
    {
      assert InBounds(run[i].tasks[j], run[i].ticks % TIMER_FREQ, n);
    }
  }

  // ---------------------------------------------------------------- the interrupt handler

  /** The scheduler's globals. `tasks` lists every thread but the idle one, in the order of the list of all
      threads. */
  class Accounting {
    var tasks: seq<Task>
    var loadAvg: int32
    var ticks: nat

    function Abstract(): State
      reads this
    {
      State(tasks, loadAvg, ticks)
    }

    constructor ()
      ensures Abstract() == BOOT
    {
      tasks, loadAvg, ticks := [], 0, 0;
    }

    method UpdateRecentCpus(ghost n: nat)
      requires LoadInBounds(loadAvg, n) && AllInBounds(tasks, TIMER_FREQ, n)
      modifies this`tasks
      ensures tasks == AllDecayed(old(tasks), loadAvg, n)
    {
      ghost var was := tasks;
      for i := 0 to |tasks|
        invariant |tasks| == |was|
        invariant forall j :: 0 <= j < i ==> tasks[j] == AllDecayed(was, loadAvg, n)[j]
        invariant forall j :: i <= j < |was| ==> tasks[j] == was[j]
      {
        var t := tasks[i];
        assert InBounds(was[i], TIMER_FREQ, n);
        tasks := tasks[i := t.(recentCpu := RecentCpu(loadAvg, t.recentCpu, t.nice, n))];
      }
    }

    method UpdatePriorities(ghost since: int, ghost n: nat)
      requires AllInBounds(tasks, since, n)
      modifies this`tasks
      ensures tasks == AllReprioritised(old(tasks), since, n)
    {
      ghost var was := tasks;
      for i := 0 to |tasks|
        invariant |tasks| == |was|
        invariant forall j :: 0 <= j < i ==> tasks[j] == AllReprioritised(was, since, n)[j]
        invariant forall j :: i <= j < |was| ==> tasks[j] == was[j]
      {
        var t := tasks[i];
        assert InBounds(was[i], since, n);
        tasks := tasks[i := t.(priority := Priority(t.recentCpu, t.nice))];
      }
    }

    method IncRecentCpu(running: Option<nat>, ghost since: int, ghost n: nat)
      requires n <= MAX_RUNNABLE && 0 <= since < TIMER_FREQ && AllInBounds(tasks, since, n)
      requires running.Some? ==> running.value < |tasks|
      modifies this`tasks
      ensures tasks == Charged(old(tasks), running, since, n)
    {
      if running.Some? {
        var t := tasks[running.value];
        assert InBounds(t, since, n);
        tasks := tasks[running.value := t.(recentCpu := PlusInt(t.recentCpu, 1))];
      }
    }

    method UpdateLoadAvg(running: Option<nat>, ready: nat, ghost n: nat)
      requires LoadInBounds(loadAvg, n) && Sample(Tick(running, ready)) <= n
      modifies this`loadAvg
      ensures loadAvg == LoadAvg(old(loadAvg), Sample(Tick(running, ready)), n)
    {
      var count := ready;
      if running.Some? {
        count := count + 1;
      }
      loadAvg := LoadAvg(loadAvg, count, n);
    }

    /** The timer interrupt, with the thread on the processor and the length of the ready list as they are. */
    method TimerInterrupt(running: Option<nat>, ready: nat, ghost n: nat)
      requires Bounded(Abstract(), n) && Legal(Abstract(), Tick(running, ready), n)
      modifies this
      ensures Abstract() == Next(old(Abstract()), Tick(running, ready), n)
    {
      ghost var since := ticks % TIMER_FREQ;
      ticks := ticks + 1;
      assert ticks % TIMER_FREQ == if since + 1 == TIMER_FREQ then 0 else since + 1;
      IncRecentCpu(running, since, n);
      if ticks % TIMER_FREQ == 0 {
        UpdateLoadAvg(running, ready, n);
        UpdateRecentCpus(n);
      }
      if ticks % 4 == 0 {
        UpdatePriorities(ticks % TIMER_FREQ, n);
      }
    }

    /** The running thread sets its niceness. */
    method SetNice(thread: nat, nice: int, ghost n: nat)
      requires Bounded(Abstract(), n) && thread < |tasks|
      modifies this`tasks
      ensures Abstract() == Next(old(Abstract()), Event.SetNice(thread, nice), n)
    {
      var v := if nice > NICE_MAX then NICE_MAX else nice;
      v := if v < -NICE_MAX then -NICE_MAX else v;
      var t := tasks[thread];
      assert InBounds(t, ticks % TIMER_FREQ, n);
      tasks := tasks[thread := t.(nice := v)];
      tasks := tasks[thread := tasks[thread].(priority := Priority(t.recentCpu, v))];
    }
  }
}
