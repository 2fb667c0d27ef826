# A verified model of a teaching operating system

This project models the parts of a Pintos-style kernel, its library, and two monitor exercises where the logic is
hardest, and proves what each is for. Each module stands for one component. Code that changes state in place is a class
or a method over an array, proved against a function or a step relation; the theorems are about those, for all inputs or
for every run.

- Synchronisation: `Reaction` (the water-making monitor), `Caltrain` (the train station), `Donation` (locks with
  priority donation), `Condition` (condition variables built from semaphores), `Scheduler` (ready list, semaphores,
  sleeping, time slices) and `Mlfqs` (the fixed-point scheduler accounting). Each is a state machine over its statements
  or primitives; a run interleaves any number of threads in any order.
- Memory: `Palloc` (pages), `Malloc` (blocks in arenas on those pages), `PageDir` (two-level page tables and the TLB).
- Files: `Bitmap`, `InodeIO` (byte ranges over sectors, file positions, denied writes) and `FileSys` (the free map,
  inodes and their openings, the root directory).
- Programs: `Loader` (ELF segments into user pages) and `Argv` (the argument stack).
- Library: `Arithmetic` (64-bit division), `Sort` (heap sort and binary search on bytes), `Stdio` and `Printf` (formatted
  output), `Ustar` (archive headers). `Common` holds what several modules share.

Failures of memory, disk and page tables are parameters (`Luck`, `written`, `memoryOk` and the like), so every error path
is covered. Ghost fields record what the code does not: which file owns a sector, which blocks are in use, how many
signals were given.

## Model

| member | source | states |
|---|---|---|
| `Arithmetic.Nlz` | project1-threads/src/lib/arithmetic.c:41-73 | the count is below 32 and shifting the argument left by it moves its top set bit to bit 31 |
| `Arithmetic.UDiv64Small` | project1-threads/src/lib/arithmetic.c:80-112 | by a divisor below 2^32, two chained 32-bit divides, neither of which traps, give the exact 64-bit quotient |
| `Arithmetic.LargeDivisor` | project1-threads/src/lib/arithmetic.c:113-126 | with the divisor normalised by its leading zeros, one 64/32 divide does not overflow and its shifted result is the true quotient or one more |
| `Arithmetic.Correction` | project1-threads/src/lib/arithmetic.c:113-126 | the final wrapped subtraction and comparison lower that estimate exactly when it is one too high |
| `Arithmetic.UDiv64` | project1-threads/src/lib/arithmetic.c:77-127 | for every dividend and every nonzero divisor the result is the mathematical quotient |
| `Arithmetic.UMod64` | project1-threads/src/lib/arithmetic.c:131-135 | the result is the remainder modulo 2^32, so it is the remainder if and only if that is below 2^32 |
| `Arithmetic.UModLosesHighBits` | project1-threads/src/lib/arithmetic.c:131-135 | a dividend and divisor whose remainder does not fit comes back as 0 |
| `Arithmetic.SDiv64` | project1-threads/src/lib/arithmetic.c:139-146 | the result rounds toward zero if and only if the operands are not the least integer and -1, for which it wraps to the least integer |
| `Arithmetic.TruncatedQuotientUnique` | project1-threads/src/lib/arithmetic.c:139-146 | there is only one quotient that rounds toward zero, so the two contracts about signed operands determine their results |
| `Arithmetic.SMod64` | project1-threads/src/lib/arithmetic.c:150-154 | the result is the remainder of rounding toward zero, narrowed to 32 bits, so it is that remainder if and only if it fits |
| `Arithmetic.SModLosesHighBits` | project1-threads/src/lib/arithmetic.c:150-154 | a dividend and divisor whose signed remainder does not fit comes back as 0 |
| `Reaction.Monitor.ReactionH` | cs140-ps0/reaction.c:31-45 | each statement of `reaction_h`, run by the thread it belongs to, takes the monitor to the state the step function gives |
| `Reaction.Monitor.ReactionO` | cs140-ps0/reaction.c:47-60 | the same for each statement of `reaction_o` |
| `Reaction.Monitor.EndWait` | cs140-ps0/reaction.c:43-52 | a wait that ends by itself moves only that thread, from its queue to the lock |
| `Reaction.SpuriousWakeupKeepsInvIff` | cs140-ps0/reaction.c:31-60 | a wait that ends by itself keeps the invariant if and only if it is an oxygen's |
| `Reaction.HydrogenReturnsEarly` | cs140-ps0/reaction.c:31-45 | a run after which a spurious wake-up lets a lone hydrogen return with no water made |
| `Reaction.StepKeepsInv` | cs140-ps0/reaction.c:31-60 | every statement of every thread keeps mutual exclusion, both wait queues, the hydrogen count, the signals owed, the water count and the pairs of hydrogens already on offer to sleeping oxygens |
| `Reaction.NoLostWakeupInAnyRun` | cs140-ps0/reaction.c:31-60 | in any run, spurious wake-ups of oxygens included, whenever the lock is free the hydrogens asleep number `h_num`, and while an oxygen sleeps at least `h_num / 2` oxygens have been signalled |
| `Reaction.StepUsesWork` | cs140-ps0/reaction.c:31-60 | every statement uses up work, even one that wakes a thread |
| `Reaction.StepWakesOne` | cs140-ps0/reaction.c:31-60 | a statement moves its own thread and at most one other: a hydrogen wakes a sleeping oxygen if and only if it has counted two hydrogens or more, an oxygen wakes sleeping hydrogens |
| `Reaction.ArriveAddsOne` | cs140-ps0/reaction.c:31-60 | a call of `reaction_h` adds a hydrogen and one of `reaction_o` an oxygen |
| `Reaction.StepKeepsKinds` | cs140-ps0/reaction.c:31-60 | no statement turns one into the other |
| `Reaction.LeavesWithWater` | cs140-ps0/reaction.c:31-60 | in any run the hydrogens let go are at most two to a water made, and exactly two whenever the lock is free; oxygens returned are no more than waters |
| `Reaction.ComesToRest` | cs140-ps0/reaction.c:31-60 | with no new calls at most as many statements run as there was work at the start |
| `Reaction.SomeoneToWake` | cs140-ps0/reaction.c:31-60 | a thread inside the monitor, or one that wants the free lock, can run its next statement whatever the queues |
| `Reaction.QuiescentYield` | cs140-ps0/reaction.c:31-60 | in any run that has come to rest, with h calls of `reaction_h` and o of `reaction_o`, exactly min(h/2, o) waters were made, two hydrogens and one oxygen returned for each, and no one else |
| `Caltrain.Station.constructor` | cs140-ps0/caltrain.c:18-30 | the station starts with no seats, nobody waiting and nobody on board |
| `Caltrain.Station.PullIn` | cs140-ps0/caltrain.c:32-36 | one statement of a train pulling in takes the monitor to the state the step function gives |
| `Caltrain.Station.LoadTrain` | cs140-ps0/caltrain.c:36-43 | the same for the loop: wake every waiting passenger, then sleep, while seats and waiting passengers remain |
| `Caltrain.Station.Depart` | cs140-ps0/caltrain.c:44-49 | the same for leaving: both counters return to zero |
| `Caltrain.Station.WaitForTrain` | cs140-ps0/caltrain.c:51-72 | the same for a passenger up to the turnstile |
| `Caltrain.Station.OnBoard` | cs140-ps0/caltrain.c:74-85 | the same for a passenger that sits down |
| `Caltrain.Station.CondBroadcast` | cs140-ps0/caltrain.c:38-40 | every waiting passenger is woken and nobody is left in the queue |
| `Caltrain.Station.EndWait` | cs140-ps0/caltrain.c:51-72 | a wait that ends by itself moves only that thread, from the queue to the lock |
| `Caltrain.StepWakes` | cs140-ps0/caltrain.c:36-85 | a statement moves its own thread and no other, but for a broadcast, which wakes every waiting passenger, and the signal of a passenger that has sat down, which wakes a train if seats have run out or `boarded` is zero |
| `Caltrain.StepBalances` | cs140-ps0/caltrain.c:32-85 | statement by statement, free seats less passengers on board stay equal to what the train still has to give |
| `Caltrain.StepKeepsAccounts` | cs140-ps0/caltrain.c:32-85 | every statement keeps that account |
| `Caltrain.SpuriousWakeupKeepsInv` | cs140-ps0/caltrain.c:32-72 | so does a wait that ends without a signal |
| `Caltrain.InvInAnyRun` | cs140-ps0/caltrain.c:32-85 | in any run, arrivals and spurious wake-ups included, the whole invariant holds; in particular those through the turnstile and not seated number `boarded` plus those left standing by earlier trains |
| `Caltrain.TrainNeverOverfills` | cs140-ps0/caltrain.c:32-85 | in any run no train lets through more passengers than its seats; while the lock is free no more are on board than there are seats, and with no train at the platform the two counters are equal, so the turnstile is shut |
| `Caltrain.LeavesSomebodyStandingIff` | cs140-ps0/caltrain.c:36-45 | at the test that ends the loop nobody is left standing if and only if `boarded` and those left before come to zero; if no earlier train left anybody, somebody is left exactly when seats remain, nobody waits and `boarded` is positive |
| `Caltrain.LeftBehindAtDepartures` | cs140-ps0/caltrain.c:44-46 | only a departure changes how many have been left standing, and it adds those then on board |
| `Caltrain.TrainLeavesStandingPassenger` | cs140-ps0/caltrain.c:36-49 | some run ends with the train gone and a passenger it let through not seated |
| `Caltrain.AlertInAnyRun` | cs140-ps0/caltrain.c:32-85 | in any run every sleeper is on its list, `wait_passengers` counts exactly those waiting, and a sleeping train has seats left and, unless an earlier one left somebody standing, a passenger on the way to one |
| `Caltrain.LastToSitSignalsIff` | cs140-ps0/caltrain.c:79-83 | the last standing passenger to sit down signals, and wakes a sleeping train, if and only if the seats are all taken or no train has left anybody standing |
| `Caltrain.QuiescentStation` | cs140-ps0/caltrain.c:32-85 | when no thread can run any more a train is still at the station if and only if seats are left, and only if an earlier train left somebody standing; otherwise every train has gone and the counters agree |
| `Caltrain.TrainLeftAsleep` | cs140-ps0/caltrain.c:79-83 | some run ends with the next train asleep for ever, seats free, nobody waiting, and no thread able to run: the passenger left behind took `board_passengers` below zero, so the last to sit does not signal |
| `Donation.NoInversion` | project1-threads/src/threads/synch.c:205-237 | where the invariant holds, the thread at the end of a chain of waiting, of any length, has at least the priority of the one at its start |
| `Donation.DonateFailsIff` | project1-threads/src/threads/synch.c:213-226 | the donation loop follows a null holder if and only if the chain leads, through locks that all remember less than the donor, to a lock nobody holds |
| `Donation.WiredNeverFails` | project1-threads/src/threads/synch.c:213-226 | it never does while every awaited lock is held |
| `Donation.WaitAndDonate` | project1-threads/src/threads/synch.c:210-226 | a walk that gets through restores the whole invariant for a chain of any depth, cyclic ones included, and any state that satisfies the invariant above the start is above the state it reaches |
| `Donation.DonateIsLeast` | project1-threads/src/threads/synch.c:213-226 | the walk, wherever it stands, raises no priority further than every state with the invariant has to |
| `Donation.DonateKeepsPointers` | project1-threads/src/threads/synch.c:213-226 | donation changes nothing but priorities and what locks remember |
| `Donation.ReleaseFallsBack` | project1-threads/src/threads/synch.c:264-283 | a thread that releases a lock falls back exactly to the least priority that is no less than its own and than what each lock it still holds remembers |
| `Donation.ReleaseChanges` | project1-threads/src/threads/synch.c:264-283 | its other locks stay its own, the one released is free and remembers what it did, and no other thread or lock changes |
| `Donation.ReleaseKeepsDonation` | project1-threads/src/threads/synch.c:264-283 | releasing keeps the pointers and the invariant; every awaited lock is held again at once if and only if nobody waits for the one released |
| `Donation.TakeKeepsDonationIff` | project1-threads/src/threads/synch.c:228-236 | taking a free lock keeps the pointers, and keeps the invariant if and only if the lock remembers no more than the taker's priority |
| `Donation.FirstHoldKeepsDonation` | project1-threads/src/threads/synch.c:228-236 | a lock nobody has waited for yet satisfies that |
| `Donation.SetPriorityKeepsDonation` | project1-threads/src/threads/thread.c:360-373 | a thread that sets its own priority keeps the invariant: its donations are not taken away |
| `Donation.SetPriorityLeastIff` | project1-threads/src/threads/thread.c:360-373 | the priority of a thread that sets its own is the least that covers its own and its locks if and only if it holds no lock, asks for no less than it has, or runs at what one of its locks remembers |
| `Donation.RaisedStaysRaised` | project1-threads/src/threads/thread.c:360-373 | a run after which a thread that nobody has donated to goes on at 50 although it has set its priority to 20 |
| `Donation.QueueKeepsOrder` | project1-threads/src/threads/synch.c:60-129 | whoever has to wait for a lock goes to the end of its queue, whoever is woken leaves from between the others, and every other queue stays as it is |
| `Donation.StepKeepsDonationIff` | project1-threads/src/threads/synch.c:205-283 | over acquiring, waking up, releasing and setting a priority: each keeps the pointers, and the invariant if and only if it does not pass a lock to a thread below what the lock remembers |
| `Donation.DonatedInAnyRunIff` | project1-threads/src/threads/synch.c:205-283 | a run keeps the invariant throughout if and only if every lock taken in it remembers no more than its taker's priority |
| `Donation.AcquireFaultsIff` | project1-threads/src/threads/synch.c:210-226 | a thread asking for a held lock gets to its queue if and only if its chain leads to no lock without a holder that remembers less than it |
| `Donation.WalkMayFault` | project1-threads/src/threads/synch.c:210-226 | a run in which the invariant holds all along, and after which such an acquisition has no outcome but the null pointer |
| `Donation.DonationMayBreak` | project1-threads/src/threads/synch.c:205-283 | a run that keeps the invariant until its last event takes a lock that still remembers a donation, and not after it |
| `Donation.ListMax` | project1-threads/src/lib/kernel/list.c:488-505 | the position found is the first of the greatest key |
| `Donation.FirstUrgentIs` | project1-threads/src/threads/synch.c:108-129 | the waiter woken has a priority no lower than any in the queue and higher than any queued before it |
| `Donation.Kernel.Walk` | project1-threads/src/threads/synch.c:213-226 | the loop gets through exactly when the specified walk does, and then leaves the same state |
| `Donation.Kernel.LockAcquire` | project1-threads/src/threads/synch.c:205-237 | a free lock is taken; a held one is queued for after donating along the chain, unless the chain leads to a null holder, which it never does while every awaited lock is held |
| `Donation.Kernel.SemaUp` | project1-threads/src/threads/synch.c:108-129 | wakes the first waiter of the greatest priority, if anyone waits, and adds one to the value |
| `Donation.Kernel.LockRelease` | project1-threads/src/threads/synch.c:264-283 | the holder falls back to the greater of its own priority and what its remaining locks remember, and the first waiter of the greatest priority wakes |
| `Condition.StepRefines` | project1-threads/src/threads/synch.c:334-376 | however the primitives interleave, every step is one of the atomic condition variable or none: a wait is one step, a signal moves exactly one waiter to those woken, and only a signalled thread resumes |
| `Condition.SignalledIs` | project1-threads/src/threads/synch.c:363-376 | a signal with a waiter moves exactly the waiter chosen, once |
| `Condition.WaitsEndBySignals` | project1-threads/src/threads/synch.c:334-376 | in any run the waits ended and the woken threads on their way back number exactly the signals that found a waiter, so none ends without one |
| `Condition.SignalMayPanic` | project1-threads/src/threads/synch.c:352-376 | a run after which the lock holder is about to signal with two waiters queued and neither asleep yet, where comparing them panics |
| `Condition.StillComparable` | project1-threads/src/threads/synch.c:363-392 | waking one of the sleepers leaves the rest comparable |
| `Condition.ConditionVariable.Enqueue` | project1-threads/src/threads/synch.c:344-345 | the first part of a wait queues a semaphore of the thread's own |
| `Condition.ConditionVariable.Release` | project1-threads/src/threads/synch.c:346-346 | gives the lock up and nothing else |
| `Condition.ConditionVariable.SemaDown` | project1-threads/src/threads/synch.c:347-347 | one pass of the wait on that semaphore |
| `Condition.ConditionVariable.Reacquire` | project1-threads/src/threads/synch.c:348-348 | takes the lock again, which ends the wait |
| `Condition.ConditionVariable.MaxWaiter` | project1-threads/src/threads/synch.c:352-376 | the search finds the first waiter of the highest priority, and gets through if and only if there is at most one waiter or all are asleep |
| `Condition.ConditionVariable.SignalOne` | project1-threads/src/threads/synch.c:363-376 | gets through if and only if the search does, and then wakes that waiter |
| `Condition.ConditionVariable.Broadcast` | project1-threads/src/threads/synch.c:384-392 | gets through if and only if the first signal does, and then has woken every waiter, each by one signal |
| `Scheduler.FirstMax` | project1-threads/src/lib/kernel/list.c:488-505 | the first among the highest priorities |
| `Scheduler.DispatchPicksHighest` | project1-threads/src/threads/thread.c:551-571 | a dispatch runs the first queued of the highest ready priority, and the idle thread only when none is ready |
| `Scheduler.NextKeepsInv` | project1-threads/src/threads/thread.c:225-327 | every event keeps one running thread, the ready list exactly the ready threads, each wait list exactly the threads blocked on it, and no blocked thread that neither waits nor sleeps |
| `Scheduler.InvInAnyRun` | project1-threads/src/threads/thread.c:225-327 | so in every state of every run |
| `Scheduler.BootedRuns` | project1-threads/src/threads/thread.c:109-120 | the state that start-up leaves satisfies all of this, so every run from it does, with no wake-up lost |
| `Scheduler.OnlyTimerWakesSleeper` | project1-threads/src/devices/timer.c:89-104 | no event but the tick touches a sleeping thread, a donation to it aside, which changes only its priority |
| `Scheduler.TickAndSleeper` | project1-threads/src/devices/timer.c:181-207 | a tick wakes a sleeper if its time is up and otherwise leaves it asleep to the same tick |
| `Scheduler.SleepsExactly` | project1-threads/src/devices/timer.c:89-104 | in any run a thread that calls `timer_sleep(n)`, n > 0, sleeps while fewer than n ticks have gone by and is awake in the state right after the n-th |
| `Scheduler.TickWakesNoWaiter` | project1-threads/src/devices/timer.c:181-187 | the tick never wakes a thread blocked on a semaphore |
| `Scheduler.NoLostWakeupInAnyRun` | project1-threads/src/threads/synch.c:60-129 | in any run a semaphore with waiters has no more units than woken threads about to take them |
| `Scheduler.NextRunsHighest` | project1-threads/src/threads/thread.c:165-327 | whatever the running thread does, no ready thread then has a higher priority than the one that runs |
| `Scheduler.SetRunsHighest` | project1-threads/src/threads/thread.c:346-373 | this holds after a thread sets its priority even if it did not before |
| `Scheduler.MaxPriorityIs` | project1-threads/src/threads/thread.c:346-357 | the greatest priority over all threads bounds that of every live one |
| `Scheduler.TickRunsHighestIff` | project1-threads/src/devices/timer.c:181-207 | a tick keeps it if and only if the slice ends or no thread it wakes is above the running one |
| `Scheduler.SleeperIsKeptWaiting` | project1-threads/src/devices/timer.c:181-207 | a run from start-up after which a tick wakes a thread above the running one, which goes on |
| `Scheduler.DonationRunsHighestIff` | project1-threads/src/threads/synch.c:220-223 | a donation keeps it if and only if it raises no ready thread above the running one, nor lowers that below a ready one |
| `Scheduler.NextComesTo` | project1-threads/src/threads/thread.c:165-373 | every event comes to what a relation on the states before and after it says: who runs next is the one queued longest of those with the highest priority, the others keep their order, newcomers queue last, and nobody else changes; the running thread gives way at its fourth tick, to a new thread above it, to a woken one above it, and when it sets its priority below that of a live thread |
| `Scheduler.UpWakesFirstHighest` | project1-threads/src/threads/synch.c:108-129 | with threads waiting exactly one leaves the wait list: nobody there has a higher priority, everybody queued before it has a lower one, it is awake, and if it is above the caller the caller no longer runs |
| `Scheduler.HigherExistsIff` | project1-threads/src/threads/thread.c:346-357 | a priority is below the greatest of all threads if and only if some live thread is above it, or it is below -1 |
| `Scheduler.UnitsAreConserved` | project1-threads/src/threads/synch.c:60-129 | in any run the value of a semaphore is what it started with and was put in, less what was taken |
| `Scheduler.ExitedNeverRuns` | project1-threads/src/threads/thread.c:292-309 | in any run a thread that has exited never runs again |
| `Scheduler.Kernel.Dispatch` | project1-threads/src/threads/thread.c:626-640 | picks from the ready list and switches, as specified |
| `Scheduler.Kernel.ThreadUnblock` | project1-threads/src/threads/thread.c:243-255 | the thread becomes ready and the last of the ready list |
| `Scheduler.Kernel.ThreadYield` | project1-threads/src/threads/thread.c:313-327 | the running thread goes to the end of the ready list, unless idle, and another is dispatched |
| `Scheduler.Kernel.SemaDownPass` | project1-threads/src/threads/synch.c:60-76 | one pass of the loop: takes a unit, or blocks and another is dispatched |
| `Scheduler.Kernel.SemaPost` | project1-threads/src/threads/synch.c:108-129 | wakes the first waiter of the highest priority, adds a unit, and gives way to a higher one or, if nobody waited, to anyone |
| `Scheduler.Kernel.TimerSleepFor` | project1-threads/src/devices/timer.c:89-104 | sleeps for n ticks, or not at all if n is not positive |
| `Scheduler.Kernel.ThreadCreate` | project1-threads/src/threads/thread.c:165-217 | the new thread is ready, and the creator gives way |
| `Scheduler.Kernel.ThreadSetPriority` | project1-threads/src/threads/thread.c:360-373 | the priority changes, unless donations hold it up, and the thread gives way if it is below any thread |
| `Scheduler.Kernel.ThreadExit` | project1-threads/src/threads/thread.c:292-309 | the thread dies and another is dispatched |
| `Scheduler.Kernel.CheckAll` | project1-threads/src/threads/thread.c:331-344 | every thread's sleep is counted down, and those whose sleep ends are queued in order |
| `Scheduler.Kernel.TimerInterrupt` | project1-threads/src/devices/timer.c:190-207 | one tick: all sleepers checked, the slice counted, and the running thread preempted at its end |
| `Mlfqs.ToNearest` | project1-threads/src/threads/float.h:4-17 | the integer is within a half of the fixed-point number, either sign |
| `Mlfqs.LoadAvg` | project1-threads/src/devices/timer.c:190-207 | with at most n threads ready the load average stays between 0 and n, and nothing overflows |
| `Mlfqs.DecayBound` | project1-threads/src/threads/thread.c:375-402 | the decay 2l/(2l+1) is at most 2n/(2n+1) in fixed point |
| `Mlfqs.RecentCpu` | project1-threads/src/threads/thread.c:375-402 | one decay brings `recent_cpu` from a second above its bound back within it, without overflow in 32 or 64 bits |
| `Mlfqs.Priority` | project1-threads/src/threads/thread.c:375-402 | the priority is within 0 and 63 for every usage and niceness |
| `Mlfqs.LoadAvgIs` | project1-threads/src/threads/thread.c:397-402 | the load average is (59 * old + ready) / 60 to within the rounding of fixed point |
| `Mlfqs.RecentCpuIs` | project1-threads/src/threads/thread.c:391-395 | what `recent_cpu` becomes, less the niceness, is 2l/(2l+1) of what it was, to within a stated rounding |
| `Mlfqs.NicenessAdds` | project1-threads/src/threads/thread.c:391-395 | a greater niceness charges exactly as much more |
| `Mlfqs.PriorityIs` | project1-threads/src/threads/thread.c:375-382 | where it is not clamped the priority is 63 - recent_cpu / 4 - 2 * nice to the nearest integer |
| `Mlfqs.PriorityFalls` | project1-threads/src/threads/thread.c:375-402 | more usage or more niceness never gives a higher priority |
| `Mlfqs.Next` | project1-threads/src/devices/timer.c:190-207 | every tick and every change of niceness keeps all bounds, with the order of charging, sampling and re-prioritising as in the handler |
| `Mlfqs.TickIs` | project1-threads/src/devices/timer.c:190-207 | at a tick only the running thread is charged; every hundredth the load is sampled first and then every thread decays under the new one; every fourth each thread gets its priority anew, and nothing else changes |
| `Mlfqs.SetNiceIs` | project1-threads/src/threads/thread.c:414-422 | a niceness is taken between -20 and 20, with the priority that goes with it at once, and nothing else changes |
| `Mlfqs.ComingAndGoing` | project1-threads/src/threads/thread.c:165-217 | a thread starts unused and with niceness 0, and one that ends leaves the others as they are |
| `Mlfqs.BoundsInAnyRun` | project1-threads/src/devices/timer.c:190-207 | in a run of any length the load average is in [0, n], `recent_cpu` within 120(2n+1) either way, and every priority in [0, 63] |
| `Mlfqs.Accounting.TimerInterrupt` | project1-threads/src/devices/timer.c:190-207 | the handler takes the state where the specification does |
| `Mlfqs.Accounting.SetNice` | project1-threads/src/threads/thread.c:414-422 | so does setting a niceness |
| `InodeIO.ChunkAdvances` | project1-threads/src/filesys/inode.c:200-250 | a pass handles a chunk inside one sector and inside the file and leaves exactly the rest; a chunk size of zero or less means no byte of the request is left in the file |
| `InodeIO.MovedIs` | project1-threads/src/filesys/inode.c:200-318 | with a bounce buffer every byte of the request that lies in the file moves; without one none from inside a sector, and otherwise as many whole sectors as there are |
| `InodeIO.SliceByte` | project1-threads/src/filesys/inode.c:200-250 | byte k of a file's extent is byte k % 512 of sector k / 512 |
| `InodeIO.WrittenConcat` | project1-threads/src/filesys/inode.c:257-318 | two writes end to end are one write |
| `InodeIO.ReadAfterWrite` | project1-threads/src/filesys/inode.c:200-318 | any range read after a write, overlapping or not, has the bytes written where it meets them and the former ones elsewhere |
| `InodeIO.ReadBack` | project1-threads/src/filesys/inode.c:200-318 | what was written reads back |
| `InodeIO.DisjointUndisturbed` | project1-threads/src/filesys/inode.c:257-318 | a write does not show in a range it does not meet |
| `InodeIO.WriteReplaces` | project1-threads/src/filesys/inode.c:257-318 | a write inside a file replaces just that part of its contents |
| `InodeIO.PiecesMakeWhole` | project1-threads/src/filesys/file.c:68-74 | however a file is cut into reads, they deliver in order what one read of the same total would |
| `InodeIO.ReadPieces` | project1-threads/src/filesys/file.c:68-74 | calls of `file_read` one after another, cut short or not, deliver one stretch of the file and leave the position at its end; if none is cut short it is what one call for the total delivers |
| `InodeIO.Inode.ReadAt` | project1-threads/src/filesys/inode.c:200-250 | the buffer gets exactly the bytes of the file from the offset on, as many as lie in the file, at any sector alignment; without a bounce buffer only the whole sectors before the first partial one |
| `InodeIO.Inode.WriteAt` | project1-threads/src/filesys/inode.c:257-318 | the device changes in exactly those bytes; nothing is written while writes are denied |
| `InodeIO.WritableIffNobodyDenies` | project1-threads/src/filesys/file.c:118-141 | the inode is writable if and only if no open file denies it, and denials never outnumber openings |
| `InodeIO.File.Read` | project1-threads/src/filesys/file.c:68-74 | reads at the position and moves it by what was read |
| `InodeIO.File.Write` | project1-threads/src/filesys/file.c:94-100 | writes nothing if some open file denies writing, and otherwise as much as the file holds, moving the position by it |
| `InodeIO.File.DenyWrite` | project1-threads/src/filesys/file.c:118-127 | denying, repeated or not, leaves the counts agreeing with the files that deny |
| `InodeIO.File.AllowWrite` | project1-threads/src/filesys/file.c:132-141 | the same for taking a denial back |
| `InodeIO.File.Close` | project1-threads/src/filesys/file.c:45-54 | closing gives up the file's denial with its opening |
| `Bitmap.Scan` | project1-threads/src/lib/kernel/bitmap.c:297-311 | finds the first run of the length and value asked for, if there is one |
| `Bitmap.ScanAndFlip` | project1-threads/src/lib/kernel/bitmap.c:320-327 | and flips exactly that run |
| `Bitmap.Contains` | project1-threads/src/lib/kernel/bitmap.c:252-264 | says whether any bit of a range has the value |
| `Bitmap.FirstRunMeans` | project1-threads/src/lib/kernel/bitmap.c:297-311 | the run found lies in the map, all its bits have the value, and every earlier run of that length, or any if none is found, has a bit of the other |
| `Bitmap.FirstRunAt` | project1-threads/src/lib/kernel/bitmap.c:297-311 | after a stretch of the other value the first run is where the stretch ends |
| `Bitmap.FlipBack` | project1-threads/src/lib/kernel/bitmap.c:219-229 | clearing a run just claimed restores the map |
| `FileSys.LiveFilesAreDisjoint` | project1-threads/src/filesys/inode.c:73-106 | every sector of a listed or open file is marked used, and no sector belongs to two |
| `FileSys.AllocationKeepsOwners` | project1-threads/src/filesys/free-map.c:27-41 | an allocation gives its owner free sectors and takes none away |
| `FileSys.ReleaseKeepsOwners` | project1-threads/src/filesys/free-map.c:43-50 | sectors of a file neither listed nor open were all marked used and can go |
| `FileSys.CopyAfterRelease` | project1-threads/src/filesys/free-map.c:43-50 | the on-disk map equals the one in memory after a release if and only if the write got past the released run: its outcome is not looked at |
| `FileSys.CopyAfterFailedAllocation` | project1-threads/src/filesys/free-map.c:27-41 | an allocation undone because its write fell short leaves the on-disk map right if and only if the write stopped before the run |
| `FileSys.CloseUndoesOpen` | project1-threads/src/filesys/inode.c:112-186 | closing an inode just opened restores the table of open inodes |
| `FileSys.RemovalOfOpenFile` | project1-threads/src/filesys/inode.c:112-195 | opening, marking removed and closing comes to marking it if it was open before, and to nothing but a last close otherwise |
| `FileSys.RemovalUnderRoot` | project1-threads/src/filesys/filesys.c:83-91 | the root directory held open meanwhile makes no difference to a removal |
| `FileSys.OpenUnderRoot` | project1-threads/src/filesys/filesys.c:66-77 | nor to an opening |
| `FileSys.CreatedIsFound` | project1-threads/src/filesys/filesys.c:45-59 | a created file is the one entry under its name, and every other name keeps its entry |
| `FileSys.DataStaysLost` | project1-threads/src/filesys/filesys.c:45-59 | once the inode sector is given back, the data sectors of a file that could not be listed are still marked used, and nothing else has changed |
| `FileSys.FitsAfterFirst` | project1-threads/src/filesys/filesys.c:45-59 | there is room for a file of a size exactly when after the first free sector is taken for its inode a free run remains for its data |
| `FileSys.NamesAreListed` | project1-threads/src/filesys/directory.c:221-236 | the names read out from a position are exactly those in use from there on |
| `FileSys.NamesAreInOrder` | project1-threads/src/filesys/directory.c:221-236 | each name stands where its slot is among those in use, and there are as many as slots in use |
| `FileSys.BitmapFileSize` | project1-threads/src/lib/kernel/bitmap.c:331-337 | the free map file has as many whole 32-bit words as hold a bit for every sector, and no more |
| `FileSys.FileSystem.constructor` | project1-threads/src/filesys/filesys.c:94-103 | formatting leaves the free map and the root directory in their sectors, exactly those sectors marked used, every slot free and the copy on disk exact |
| `FileSys.FileSystem.FreeMapAllocate` | project1-threads/src/filesys/free-map.c:27-41 | takes the first free run if and only if there is one and the map could be written; on failure the map in memory is as before |
| `FileSys.FileSystem.FreeMapRelease` | project1-threads/src/filesys/free-map.c:43-50 | the run was marked used and is free afterwards, in memory; on disk as far as the write got |
| `FileSys.FileSystem.InodeCreate` | project1-threads/src/filesys/inode.c:73-106 | succeeds if and only if memory, a free run and the write of the map are to be had, and then the file owns fresh sectors, its data sectors are zeros and no other is written; otherwise nothing stays allocated |
| `FileSys.FileSystem.InodeOpen` | project1-threads/src/filesys/inode.c:112-142 | one in-memory inode per sector, however often it is opened |
| `FileSys.FileSystem.InodeClose` | project1-threads/src/filesys/inode.c:164-186 | the last close of a removed file, and no other, frees its inode sector and its data, all marked used until then |
| `FileSys.FileSystem.InodeRemove` | project1-threads/src/filesys/inode.c:190-195 | only marks the inode |
| `FileSys.FileSystem.Lookup` | project1-threads/src/filesys/directory.c:91-112 | finds the first slot in use under the name among those that could be read |
| `FileSys.FileSystem.DirAdd` | project1-threads/src/filesys/directory.c:141-179 | lists the file in the first free slot, or at the first slot that cannot be read if that comes before; it overwrites an entry in use if and only if the slots up to and with the first unreadable one are all in use |
| `FileSys.FileSystem.DirRemove` | project1-threads/src/filesys/directory.c:184-216 | unlists the name; the file's sectors go at once if nobody has it open and otherwise stay |
| `FileSys.FileSystem.Create` | project1-threads/src/filesys/filesys.c:45-59 | all going well it succeeds if and only if the name can be listed and the disk has room; a failure leaves the directory as it was, and leaves the free map as it was if and only if there was no room or no data sector to take: otherwise exactly the data sectors stay marked; a new file reads as zeros, and no sector in use before is written; an entry in use is overwritten exactly as by `dir_add` |
| `FileSys.FileSystem.Open` | project1-threads/src/filesys/filesys.c:66-77 | opens the file listed under the name if and only if there is one |
| `FileSys.FileSystem.Remove` | project1-threads/src/filesys/filesys.c:83-91 | removes it if and only if there is one; a failure changes nothing |
| `FileSys.FileSystem.Close` | project1-threads/src/filesys/inode.c:164-186 | frees the sectors of a removed file at its last close, exactly then; the copy on disk stays exact if the writes do not fail |
| `FileSys.EntryLost` | project1-threads/src/filesys/directory.c:158-174 | with no slot readable a second file is listed over the first, whose name is gone |
| `FileSys.SectorLost` | project1-threads/src/filesys/filesys.c:45-59 | a second file of the same name is refused and a sector stays marked for it |
| `FileSys.CopyLeftBehind` | project1-threads/src/filesys/free-map.c:43-50 | a release after which the map on disk is not the one in memory |
| `FileSys.CopyLeftAhead` | project1-threads/src/filesys/free-map.c:27-41 | an undone allocation after which it is not either |
| `FileSys.Dir.ReadDir` | project1-threads/src/filesys/directory.c:221-236 | successive calls give the names in use in order, each once, and then none |
| `Palloc.UserPages` | project1-threads/src/threads/palloc.c:46-63 | the user pool gets half of the pages rounded down or its limit, whichever is less |
| `Palloc.MapFits` | project1-threads/src/threads/palloc.c:154-164 | a pool's map takes as few pages as hold its header and a bit for every page |
| `Palloc.GivingBackUndoesTaking` | project1-threads/src/threads/palloc.c:70-142 | giving pages back restores the pool |
| `Palloc.TakenAreFresh` | project1-threads/src/threads/palloc.c:70-101 | pages in use are never handed out again |
| `Palloc.PageAllocator.constructor` | project1-threads/src/threads/palloc.c:45-62 | the two pools are adjacent, fill the memory up to its end, and are empty |
| `Palloc.PageAllocator.GetMultiple` | project1-threads/src/threads/palloc.c:70-101 | takes the first free run of the right pool if and only if there is one, zeroed on request, and touches nothing else; with none it panics exactly if asked to |
| `Palloc.PageAllocator.FreeMultiple` | project1-threads/src/threads/palloc.c:117-142 | gives the pages back to the pool they came from and overwrites them |
| `Malloc.PerArena` | project1-threads/src/threads/malloc.c:71-85 | an arena has as many blocks of its size as fit a page after the header, and not one more |
| `Malloc.BlockSizesDouble` | project1-threads/src/threads/malloc.c:71-85 | block sizes are the powers of two from 16 bytes on |
| `Malloc.PageCntIs` | project1-threads/src/threads/malloc.c:105-120 | a big request takes as few pages as hold it and a header, unless rounding up passes 2^32 |
| `Malloc.BlockToArenaInverts` | project1-threads/src/threads/malloc.c:267-294 | the arena and the number of a block can be read off its address |
| `Malloc.AddressToBlock` | project1-threads/src/threads/malloc.c:267-282 | for every live block, small or big, the address gives its arena, and the block number in it |
| `Malloc.BlockInArena` | project1-threads/src/threads/malloc.c:285-294 | a live block lies in its arena's pages, past the header |
| `Malloc.LiveBlocksAreDisjoint` | project1-threads/src/threads/malloc.c:89-154 | no two live blocks share a byte |
| `Malloc.BigEnoughIff` | project1-threads/src/threads/malloc.c:105-120 | a live block has room for the size asked for if and only if that size and the header together fit 32 bits |
| `Malloc.WrappedRequest` | project1-threads/src/threads/malloc.c:105-120 | a request for 2^32 - 1 bytes gets a block of one page |
| `Malloc.TakeAllocates` | project1-threads/src/threads/malloc.c:148-153 | taking the front of a free list gives a block that was not live and changes no live block |
| `Malloc.NewArenaKeepsSound` | project1-threads/src/threads/malloc.c:125-146 | a fresh arena has all its blocks on the free list of its descriptor, counted |
| `Malloc.GiveReleases` | project1-threads/src/threads/malloc.c:238-242 | giving a block back adds one to its arena's count and changes no other block |
| `Malloc.FullIffUnused` | project1-threads/src/threads/malloc.c:241-253 | an arena's count is that of all its blocks if and only if no live block is in it |
| `Malloc.FreedReleases` | project1-threads/src/threads/malloc.c:231-258 | freeing keeps every other live block; the arena goes exactly when no live block is left in it |
| `Malloc.DropArenaKeepsSound` | project1-threads/src/threads/malloc.c:247-252 | taking an unused arena apart leaves the other arenas' blocks on their lists, each once |
| `Malloc.TookPagesConserves` | project1-threads/src/threads/malloc.c:89-154 | a successful `malloc` takes from the pool exactly the pages of the new arena, or none: the pages in use stay those of arenas and those held elsewhere |
| `Malloc.GavePagesConserves` | project1-threads/src/threads/malloc.c:218-264 | a `free` gives back exactly the pages of the arena that goes, or none: the same holds |
| `Malloc.CallConserves` | project1-threads/src/threads/malloc.c:89-264 | each call of `malloc`, `free` or `realloc`, one that moves a block included, keeps the heap sound and the pages held elsewhere |
| `Malloc.PagesAreConserved` | project1-threads/src/threads/malloc.c:89-264 | over any run of `malloc`, `realloc` and `free`, each a call as their contracts give it, the pages in use are exactly those of the arenas and those held elsewhere at the start |
| `Malloc.PagesComeBack` | project1-threads/src/threads/malloc.c:89-264 | a run that starts and ends with no block live ends with the pool it started with |
| `Malloc.NothingHeld` | project1-threads/src/threads/malloc.c:218-264 | with no block live the allocator has no arena and no page |
| `Malloc.ArenaHasUser` | project1-threads/src/threads/malloc.c:241-253 | between calls every arena has a live block |
| `Malloc.OthersMayTakePages` | project1-threads/src/threads/palloc.c:70-101 | pages taken by others meanwhile do no harm |
| `Malloc.OthersMayGiveBackPages` | project1-threads/src/threads/palloc.c:117-142 | nor do pages of their own they give back |
| `Malloc.FreedKeepsBytes` | project1-threads/src/threads/malloc.c:218-264 | the junk written over a freed block, and over a page given back, reaches no other live block |
| `Malloc.ResizedInThreeSteps` | project1-threads/src/threads/malloc.c:194-214 | allocating, copying and freeing keeps the first bytes of the old block in the new one, and all other live blocks |
| `Malloc.Allocator.constructor` | project1-threads/src/threads/malloc.c:71-85 | starts with the power-of-two descriptors from 16 to 1024 bytes and no arena |
| `Malloc.Allocator.Malloc` | project1-threads/src/threads/malloc.c:89-154 | succeeds if and only if a block or enough consecutive pages are to be had; hands out a new block of the smallest sufficient descriptor or of whole pages, takes exactly the pages of a new arena, and changes nothing on failure; the block given back last is handed out first, and a fresh arena hands out its blocks by ascending address |
| `Malloc.Allocator.Free` | project1-threads/src/threads/malloc.c:218-264 | the block goes to the front of its free list, its bytes are overwritten with 0xcc, every other block keeps its place and bytes; its pages go back to the pool exactly when its arena does, and otherwise the pool is unchanged |
| `Malloc.Allocator.SizeOf` | project1-threads/src/threads/malloc.c:178-186 | how many bytes a live block can hold |
| `Malloc.Allocator.Realloc` | project1-threads/src/threads/malloc.c:194-214 | the new block holds the old contents up to the smaller size, the old block is gone and its pages with it if it was the last; on failure the old block stays and nothing changes |
| `PageDir.IndicesArePageNo` | project1-threads/src/threads/pte.h:32-64 | directory index and table index together are the page number, and user pages are those below the kernel's directory entries |
| `PageDir.EntryReadsBack` | project1-threads/src/threads/pte.h:66-104 | an entry made for a frame reads back as present, with that frame and permission, neither accessed nor dirty |
| `PageDir.FlagsAre` | project1-threads/src/threads/pte.h:66-104 | the flags are the binary digits 1, 2, 4, 32 and 64 of an entry, and setting or clearing one changes just that digit |
| `PageDir.DirtyIsSeparate` | project1-threads/src/userprog/pagedir.c:172-186 | setting or clearing the dirty bit leaves the frame, presence, permission and accessed bit |
| `PageDir.AccessedIsSeparate` | project1-threads/src/userprog/pagedir.c:201-215 | the same for the accessed bit |
| `PageDir.PresentIsSeparate` | project1-threads/src/userprog/pagedir.c:143-157 | the same for the present bit |
| `PageDir.UserEntryIsLocal` | project1-threads/src/userprog/pagedir.c:98-119 | writing the entry of one user page shows at that page of that directory only |
| `PageDir.KernelEntryIsShared` | project1-threads/src/userprog/pagedir.c:16-23 | writing a kernel page's entry shows at that page in every directory, and nowhere else |
| `PageDir.TableMapsNothing` | project1-threads/src/userprog/pagedir.c:56-86 | a table added for a directory changes no mapping |
| `PageDir.NewDirMapsKernelOnly` | project1-threads/src/userprog/pagedir.c:16-23 | a new directory maps what the first one maps for the kernel, and no user page |
| `PageDir.ChangeKeepsCoherent` | project1-threads/src/userprog/pagedir.c:98-215 | a change of an entry the TLB does not hold, or one that keeps its translation, keeps the TLB coherent |
| `PageDir.FreedOnce` | project1-threads/src/userprog/pagedir.c:27-48 | for any number of directory entries done, the frames freed are exactly those mapped and the tables, each once |
| `PageDir.DestroyFreesOnce` | project1-threads/src/userprog/pagedir.c:27-48 | if every frame is mapped once, destroying frees every mapped frame, every table and the directory exactly once, and nothing else |
| `PageDir.WithoutDirKeepsRest` | project1-threads/src/userprog/pagedir.c:27-48 | what other directories map is unchanged by it |
| `PageDir.Paging.constructor` | project1-threads/src/userprog/pagedir.c:219-231 | starts on the kernel's directory with nothing cached |
| `PageDir.Paging.LookupPage` | project1-threads/src/userprog/pagedir.c:56-86 | finds the entry's table, or makes one if asked and a page is to be had; no mapping changes |
| `PageDir.Paging.SetPage` | project1-threads/src/userprog/pagedir.c:98-119 | maps the page as asked if and only if a table is there or to be had, changes no other mapping, and needs no flush to keep the TLB coherent |
| `PageDir.Paging.GetPage` | project1-threads/src/userprog/pagedir.c:125-137 | gives frame and offset if and only if the page is mapped |
| `PageDir.Paging.ClearPage` | project1-threads/src/userprog/pagedir.c:143-157 | unmaps that page alone, and the TLB holds no translation for it afterwards if the directory is active |
| `PageDir.Paging.IsDirty` | project1-threads/src/userprog/pagedir.c:163-168 | reads the bit of the entry, false where there is none |
| `PageDir.Paging.SetDirty` | project1-threads/src/userprog/pagedir.c:172-186 | changes that bit of that entry alone, and keeps the TLB coherent |
| `PageDir.Paging.IsAccessed` | project1-threads/src/userprog/pagedir.c:192-197 | as for the dirty bit |
| `PageDir.Paging.SetAccessed` | project1-threads/src/userprog/pagedir.c:201-215 | as for the dirty bit |
| `PageDir.Paging.Create` | project1-threads/src/userprog/pagedir.c:16-23 | a directory that maps no user page; the others are untouched |
| `PageDir.Paging.Destroy` | project1-threads/src/userprog/pagedir.c:27-48 | frees, in order, exactly the frames listed above; the other directories map what they did |
| `PageDir.Paging.Activate` | project1-threads/src/userprog/pagedir.c:219-231 | makes the directory active with an empty TLB |
| `PageDir.Paging.Invalidate` | project1-threads/src/userprog/pagedir.c:254-263 | empties the TLB if the directory is the active one |
| `PageDir.Paging.TlbFill` | project1-threads/src/userprog/pagedir.c:219-263 | a hardware walk caches a present entry and marks it accessed; the TLB stays coherent |
| `PageDir.Paging.Store` | project1-threads/src/userprog/pagedir.c:163-186 | a store through a cached translation leaves the page marked dirty in memory |
| `Argv.WordsOfSpelled` | project1-threads/src/lib/string.c:234-275 | splitting undoes any spelling of the words, whatever runs of delimiters surround them |
| `Argv.WordEnded` | project1-threads/src/lib/string.c:264-275 | ending a word in place leaves it as the first word and the rest as the words after it |
| `Argv.StrtokR` | project1-threads/src/lib/string.c:234-275 | returns the next word, ended in place, and where the remaining words are; null exactly when there is none |
| `Argv.ArgumentReadsBack` | project2-user_programs/src/userprog/process.c:109-132 | following argv[i] in the image gives word i |
| `Argv.ImageOf` | project2-user_programs/src/userprog/process.c:109-132 | strings, pointers and the three last words together read back as the words: argc, argv, aligned, null-terminated |
| `Argv.PushStrings` | project2-user_programs/src/userprog/process.c:109-115 | every word is on the stack with its null byte, at the address noted |
| `Argv.PushPointers` | project2-user_programs/src/userprog/process.c:121-126 | the null pointer and the addresses are stored in order and nothing above is overwritten |
| `Argv.PushHeader` | project2-user_programs/src/userprog/process.c:127-132 | argv, argc and a null return address follow, and nothing above is overwritten |
| `Argv.BuildStack` | project2-user_programs/src/userprog/process.c:109-132 | every command line of at most 64 words whose image fits the page reads back from the final stack pointer as exactly its words |
| `Loader.AcceptedSegments` | project2-user_programs/src/userprog/process.c:414-455 | the tests on 32-bit words accept exactly the segments that lie in user space without wrap-around and past page 0 |
| `Loader.CountsCoverSegment` | project2-user_programs/src/userprog/process.c:361-391 | for an accepted segment the byte counts do not underflow, fill whole pages below PHYS_BASE and end within a page of the segment's end |
| `Loader.PagesOfSegment` | project2-user_programs/src/userprog/process.c:361-391 | its pages are exactly those that a byte of it lies in |
| `Loader.AcceptableIs` | project2-user_programs/src/userprog/process.c:348-391 | headers of kinds 2, 3 and 5 are refused, those of kind 1 checked, and all others passed over |
| `Loader.WriteFlagIs` | project2-user_programs/src/userprog/process.c:364-364 | a segment is writable if and only if the second lowest digit of its flags is set |
| `Loader.SegmentIsInMemory` | project2-user_programs/src/userprog/process.c:361-391 | pages loaded with these counts hold the file bytes at `p_vaddr` and zeros to the end of the last page |
| `Loader.HeaderReadsBack` | project2-user_programs/src/userprog/process.c:241-251 | a program header stored anywhere in the file reads back field by field |
| `Loader.ExecutableReadsBack` | project2-user_programs/src/userprog/process.c:322-333 | a file that begins with an ELF header as the format lays it out is gone on with if and only if it is a 32-bit little-endian executable for the 80386 with at most 1024 program headers of 32 bytes, and its entry point, table offset and count are seen as written |
| `Loader.TableReadsBack` | project2-user_programs/src/userprog/process.c:335-347 | the program headers are seen as they stand in the table, one after another from its offset |
| `Loader.Space.ReadHeader` | project2-user_programs/src/userprog/process.c:335-349 | a header is read if and only if its offset is not negative, all of it lies in the file and the read succeeds |
| `Loader.Space.InstallPage` | project2-user_programs/src/userprog/process.c:545-554 | maps a page unless one is mapped there or no table is to be had |
| `Loader.Space.LoadSegment` | project2-user_programs/src/userprog/process.c:471-514 | on success exactly its pages are new and hold the file bytes and zeros; it succeeds whenever nothing is in the way and memory, file and tables suffice |
| `Loader.Space.LoadHeader` | project2-user_programs/src/userprog/process.c:335-392 | success means the header is acceptable and its segment in memory, other pages untouched; it succeeds whenever nothing stands against it |
| `Loader.Space.Load` | project2-user_programs/src/userprog/process.c:295-406 | success means the file begins with the header of an executable, whose entry point is returned, every loadable segment of its program headers is in memory, no two share a page, and nothing else is mapped but a zeroed writable stack page; and it succeeds whenever the header is right, all program headers are acceptable, their pages are apart from one another and from the stack, and memory and file suffice |
| `Sort.HeapifyMakesHeap` | project1-threads/src/lib/stdlib.c:96-123 | floating down restores a heap broken at one place |
| `Sort.HeapifyRearranges` | project1-threads/src/lib/stdlib.c:96-123 | it only rearranges the elements of the heap |
| `Sort.RootIsLargest` | project1-threads/src/lib/stdlib.c:131-152 | the root of a heap is at least every element |
| `Sort.SortDownSorts` | project1-threads/src/lib/stdlib.c:141-152 | from a heap, moving the root behind it again and again sorts |
| `Sort.HeapSortSorts` | project1-threads/src/lib/stdlib.c:131-152 | under any total preorder the result is sorted and a permutation |
| `Sort.SortKeepsElements` | project1-threads/src/lib/stdlib.c:131-152 | whatever the comparison does, the result is a permutation |
| `Sort.ExchangeSwaps` | project1-threads/src/lib/stdlib.c:66-79 | exchanging bytes of two elements swaps the elements and touches no other |
| `Sort.DoSwap` | project1-threads/src/lib/stdlib.c:66-79 | the byte loop is that exchange |
| `Sort.HeapifyArray` | project1-threads/src/lib/stdlib.c:96-123 | the loop over the byte array floats the element down as specified |
| `Sort.SortArray` | project1-threads/src/lib/stdlib.c:131-152 | the byte array ends sorted and rearranged, in place |
| `Sort.BinarySearch` | project1-threads/src/lib/stdlib.c:184-207 | finds a matching element of a sorted array if and only if there is one |
| `Stdio.BufferFits` | project1-threads/src/lib/stdio.c:469-547 | digits, grouping and precision never exceed the 64-byte buffer, for every 64-bit value, base, flag set and precision |
| `Stdio.BufferReadsBack` | project1-threads/src/lib/stdio.c:469-547 | in every base, grouped or not, the digits put out read back as the value |
| `Stdio.DigitsLook` | project1-threads/src/lib/stdio.c:469-547 | every digit is one of its base in the case of its conversion, and a grouped number has commas between groups and nowhere else |
| `Stdio.NumberPutOut` | project1-threads/src/lib/stdio.c:469-547 | the number put out is its digits without superfluous zeros, after as many zeros as the precision asks for |
| `Stdio.FormattedIsField` | project1-threads/src/lib/stdio.c:469-547 | sign, prefix and number stand in the field with blanks before or after them, or zeros after the prefix, as the flags ask |
| `Stdio.FormattedReadsBack` | project1-threads/src/lib/stdio.c:469-547 | %d of any number reads back with `atoi`, for every width, precision and flag set without grouping |
| `Stdio.SignedNumberReads` | project1-threads/src/lib/stdlib.c:9-41 | `atoi` of blanks, a sign, digits and blanks is the signed number |
| `Stdio.AtoiReads` | project1-threads/src/lib/stdlib.c:9-41 | `atoi` passes over white space, takes one sign and reads the digits up to the first character that is none |
| `Stdio.FormatInteger` | project1-threads/src/lib/stdio.c:469-547 | the loops put out the specified field |
| `Stdio.StoredIs` | project1-threads/src/lib/stdio.c:25-52 | with room for n characters the first n - 1 of the text at most are stored, a null byte right after them, and nothing else |
| `Stdio.Vsnprintf` | project1-threads/src/lib/stdio.c:25-52 | stores exactly the first characters that fit before a null byte, changes nothing else, and returns the full length; without room it stores nothing |
| `Stdio.Atoi` | project1-threads/src/lib/stdlib.c:9-41 | reads every number that fits an int, the least one too, with no overflow on the way |
| `Printf.SpecReadsBack` | project1-threads/src/lib/stdio.c:335-460 | parsing a written conversion, whatever its flags and their order, width, precision, stars and type, gives what it means and stops at its letter with its arguments used |
| `Printf.BothPadsIff` | project1-threads/src/lib/stdio.c:335-420 | the zero and minus flags end up both set if and only if a star takes a negative width with a zero flag, no minus and no precision |
| `Printf.PadsTwice` | project1-threads/src/lib/stdio.c:335-547 | `%0*d` with the width -5 puts out nine characters for a digit |
| `Printf.FieldWidth` | project1-threads/src/lib/stdio.c:469-547 | a field is as wide as asked for or as what it must show, except that with both flags it is padded twice |
| `Printf.FormatPrints` | project1-threads/src/lib/stdio.c:156-333 | a format of any pieces comes to what its pieces come to, each with its own arguments |
| `Printf.ConversionAlone` | project1-threads/src/lib/stdio.c:156-333 | a format that is one conversion comes to the conversion of its argument |
| `Printf.DecimalReadsBack` | project1-threads/src/lib/stdio.c:156-333 | any %d or %i without grouping is read back by `atoi` as the value its argument has in the type |
| `Printf.IntegerPrints` | project1-threads/src/lib/stdio.c:156-333 | any %d, %i, %u, %o, %x or %X shows the value its argument has in the type: digits that read back in base 10, 8 or 16, lower-case for x and upper-case for X, with the sign, prefix, zeros, commas and padding that flags, width and precision ask for |
| `Printf.PointerPrints` | project1-threads/src/lib/stdio.c:305-315 | %p shows an address as %#lx does, on the right of its field |
| `Printf.StringPrints` | project1-threads/src/lib/stdio.c:283-303 | %s shows a string, or (null), up to its precision, and %c a character, padded with blanks on the side the flags say |
| `Printf.OthersAreRefused` | project1-threads/src/lib/stdio.c:317-330 | any other letter takes no argument and comes to a notice that names it |
| `Printf.ParseConversion` | project1-threads/src/lib/stdio.c:335-460 | the code that parses a conversion agrees with its specification |
| `Printf.FormatString` | project1-threads/src/lib/stdio.c:557-572 | puts out a string with its padding as specified |
| `Printf.Vprintf` | project1-threads/src/lib/stdio.c:156-333 | the loop over the format puts out what the specification says |
| `Printf.Snprintf` | project1-threads/src/lib/stdio.c:61-72 | stores the first characters that fit of that, a null byte, and returns the full length |
| `Ustar.StripIsIdempotent` | project1-threads/src/lib/ustar.c:65-73 | a stripped name is never empty, is not rooted and climbs nowhere, and stripping again changes nothing |
| `Ustar.StripIs` | project1-threads/src/lib/ustar.c:65-73 | a stripped name begins with none of "/", "./" and "../"; it is what follows a stretch of the name made of these, or "." if that is nothing or ".." |
| `Ustar.DecentNameStays` | project1-threads/src/lib/ustar.c:65-73 | a name that begins with none of them comes back unchanged, unless it is empty or ".." |
| `Ustar.CStringIs` | project1-threads/src/lib/ustar.c:181-227 | the name in a header is what lies before the first null byte of its field |
| `Ustar.OctalRoundTrip` | project1-threads/src/lib/ustar.c:129-162 | parsing what was printed into an octal field gives the number, while it fits the field and 32 bits |
| `Ustar.OctalFieldIff` | project1-threads/src/lib/ustar.c:129-162 | a field is read as a number exactly if it is octal digits that come to it, ended by a space or a null byte inside the field, and fits 32 bits |
| `Ustar.SumIgnoresField` | project1-threads/src/lib/ustar.c:36-54 | the checksum does not depend on the checksum field |
| `Ustar.ChecksumIs` | project1-threads/src/lib/ustar.c:36-54 | the checksum is the sum of the bytes before and after its field and of eight spaces |
| `Ustar.HeaderFields` | project1-threads/src/lib/ustar.c:82-118 | everything the parser looks at is in a made header as it should be |
| `Ustar.HeaderIs` | project1-threads/src/lib/ustar.c:82-118 | a made header byte for byte: name, mode 644 or 755, owner and group 0, size, time, checksum, type, magic number, version and owners' names, with zeros between |
| `Ustar.RoundTrip` | project1-threads/src/lib/ustar.c:82-227 | parsing a made header gives the stripped name, the type and the size; a directory's size reads as 0, and a negative size of a file is refused |
| `Ustar.ParsesIff` | project1-threads/src/lib/ustar.c:181-227 | a header parses as a file or directory if and only if magic number, version, checksum, name, prefix, type and size are each as they should be |
| `Ustar.EndsIff` | project1-threads/src/lib/ustar.c:181-227 | a block is taken for the end of the archive if and only if all its bytes are zero |
| `Ustar.CalculateChksum` | project1-threads/src/lib/ustar.c:36-54 | the loop sums the bytes with the field taken as blanks |
| `Ustar.StripPrefixes` | project1-threads/src/lib/ustar.c:65-73 | the loop drops the prefixes as specified |
| `Ustar.Strlcpy` | project1-threads/src/lib/string.c:325-343 | copies a string that fits and its null byte, and nothing beyond |
| `Ustar.PrintOctal` | project1-threads/src/lib/ustar.c:102-115 | the two formats print exactly the octal digits asked for |
| `Ustar.MakeHeader` | project1-threads/src/lib/ustar.c:82-118 | refuses exactly the names too long once stripped, leaving the header alone, and otherwise makes a header that parses as its arguments |
| `Ustar.ParseOctalField` | project1-threads/src/lib/ustar.c:129-162 | reads a field or reports it malformed or too large |
| `Ustar.IsAllZeros` | project1-threads/src/lib/ustar.c:166-173 | recognises an end-of-archive block |
| `Ustar.ParseHeader` | project1-threads/src/lib/ustar.c:181-227 | agrees with the specification of parsing, error by error |

## Findings

Where the code falls short of what it promises, the model keeps the code and the exact condition is proved.

- A train can leave with a passenger standing: exactly when, at the test that ends the loop, `boarded` or the number left
  by earlier trains is not zero (`Caltrain.LeavesSomebodyStandingIff`, `Caltrain.TrainLeavesStandingPassenger`).
- The last passenger to sit down does not signal exactly when seats are left and somebody was left standing before
  (`Caltrain.LastToSitSignalsIff`). A train may then sleep for ever (`Caltrain.TrainLeftAsleep`); while nobody has been
  left standing none does (`Caltrain.QuiescentStation`).
- A wait of `reaction_h` is in no loop, so a spurious wake-up, which pthreads allows, lets a hydrogen return without
  water; one of `reaction_o` does no harm (`Reaction.SpuriousWakeupKeepsInvIff`, `Reaction.HydrogenReturnsEarly`).
- The donation loop can follow the null holder of a released lock whose waiter has not run yet, exactly when the chain
  leads to one that remembers less than the donor (`Donation.AcquireFaultsIff`, `Donation.WalkMayFault`).
- A lock never forgets the priority it remembers, so a later holder of lower priority leaves the lock above its holder,
  exactly then (`Donation.DonatedInAnyRunIff`, `Donation.DonationMayBreak`).
- `thread_set_priority` lowers nothing while a lock is held, so a thread can go on above everything that asks for it,
  exactly if it then holds a lock, asks for less than it has and runs at what none of its locks remembers
  (`Donation.SetPriorityLeastIff`, `Donation.RaisedStaysRaised`).
- `cond_signal` with two waiters panics unless every waiter is already asleep (`Condition.ConditionVariable.SignalOne`,
  `Condition.SignalMayPanic`): `cond_cmp` looks at the front of a list that may be empty.
- The timer tick wakes threads without looking at their priorities (`Scheduler.TickRunsHighestIff`,
  `Scheduler.SleeperIsKeptWaiting`).
- `malloc` of a size within 11 bytes of 2^32 wraps to one page (`Malloc.BigEnoughIff`, `Malloc.WrappedRequest`).
- `free_map_release` ignores a failed write (`FileSys.CopyAfterRelease`, `FileSys.CopyLeftBehind`); a failed allocation may
  leave bits set on disk (`FileSys.CopyAfterFailedAllocation`, `FileSys.CopyLeftAhead`).
- A `filesys_create` that fails although there is room for the file gives back the inode sector but not the data sectors,
  which stay marked used with no file that has them, exactly then (`FileSys.FileSystem.Create`, `FileSys.SectorLost`).
- `dir_add` takes a slot it cannot read for a free one, so it overwrites a live entry exactly when the slots up to and with
  the first one it cannot read are all in use (`FileSys.FileSystem.DirAdd`, `FileSys.EntryLost`).
- A negative width from a star with the zero flag pads twice (`Printf.BothPadsIff`,
  `Printf.FieldWidth`, `Printf.PadsTwice`).
- `umod64` and `smod64` return 32 bits, though their operands have 64 (`Arithmetic.UMod64`,
  `Arithmetic.SMod64`, `Arithmetic.UModLosesHighBits`, `Arithmetic.SModLosesHighBits`).

## Left out

- Donation.Kernel.LockRelease: for a holder that keeps no other lock the code reads a priority next to the tail of an
  empty list (synch.c:276-277); that word is a kernel address, negative as an int, so the holder falls back to its own
  priority, which is what the model says without modelling the address.
- Donation.DonatedInAnyRunIff: each primitive is one step up to where its thread sleeps, so threads do not interleave
  inside the donation loop; nothing is claimed about what follows a take that breaks the invariant.
- Donation.Kernel.LockAcquire: with the lock held it is specified from states with the invariant of donation only, where
  the donor's priority cannot change during its own walk.
- Condition.StepRefines: donation through the lock that a waiter gives up and takes again is not part of `Condition`.
- Reaction.QuiescentYield: about runs in which no hydrogen's wait ends by itself.
- Caltrain.TrainNeverOverfills: one train at a time is at the station or on its way in, as `station_load_train` expects.
- FileSys.FileSystem.DirAdd: directory data is kept as slots, not as bytes of the directory's file, and directories have
  one sector of slots that never grows.
- FileSys.FileSystem.InodeCreate: what the free map file, the root directory and inode sectors hold is kept as values, not
  as bytes on the device.
- FileSys.FileSystem.constructor: mounting a disk without formatting it is left out.
- Loader.Space.Load: opening the file, denying writes to it and making its page directory are left out.
- Malloc.Allocator.Realloc: `calloc`, a `malloc` and a fill, is left out; the lock of each descriptor is not modelled, so
  a call is one step.
- PageDir.Paging.TlbFill: the hardware is modelled as walks, evictions and stores; a directory is not destroyed while it
  is active.
- Printf.Vprintf: missing or mismatched arguments read as 0, widths beyond an int and a conversion cut off by the end of
  the format are not modelled faithfully.
- Scheduler.NextRunsHighest: with the fixed-point scheduler priorities change at ticks; that combination is left out.
- `lock_try_acquire` and `sema_try_down`, which wait for nobody.
- Drivers, interrupts, partitions, descriptor tables, exceptions, context switching and boot, which are hardware.
- System calls, process creation, waiting and exit of the second project, and the unfinished third and fourth projects.
- `hex_dump`, human-readable sizes, the remaining string functions, lists beyond their use here, and random numbers: easy.
- The other projects' copies of the same files.
