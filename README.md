# Dining table: lifecycle, ring wiring and fairness throttle

This project models the sequential bookkeeping of the dining-philosophers
table `DiningTable` in Dafny. The table seats `N` philosophers around `N`
forks. Philosopher `i` eats with fork `i` on its left and fork `(i + 1) mod N`
on its right. The table keeps a shared list with the meal count each
philosopher last reported. `start()` runs one worker per seat. Before eating,
each worker applies a fairness rule: when its own count is at least 1.5 times
the smallest reported count, it publishes its count and pauses. `stop()` raises
a stop signal, and the aggregate queries fold over the philosophers' meal
counters.

Files and modules:

- `errors.dfy` (`Errors`): the result types and the table's exceptions.
- `folds.dfy` (`Folds`): maximum, minimum and sum of a sequence, with their bounds and monotonicity.
- `ring.dfy` (`Ring`): the fork indices of each seat.
- `throttle.dfy` (`Throttle`): the fairness test, written in exact integers.
- `lifecycle.dfy` (`Lifecycle`): the size check and the start/stop state machine, including traces of calls.
- `dining_table.dfy` (`Dining`): the classes `Fork`, `Philosopher` and `Table`.
  `Table.Step(i)` is one iteration of worker `i`'s loop.
  A client scenario for a two-seat table (`DiningScenario`) uses only the contracts.

Threads are abstracted away. One `Step` call is one whole loop iteration of
one worker, taken atomically. Any interleaving of iterations is therefore a
sequence of `Step` calls on the same table.

The `Table` class keeps the Java fields:

- `forks` and `phils` as arrays of objects;
- the shared list `numberOfMealsForEachPhilosopher` as the array `reported`, updated in place;
- the workers' local `count` variables as the array `pending`;
- the flags `started` and `shouldStop`;
- `diners`, the philosopher each worker captured when `start()` ran.

The object invariant `Valid()` adds a ghost count `served`: how often each
worker has called `onHungry`. The invariant states that
`reported[k] + pending[k] == served[k]` for every seat. So a published count
is always the worker's true number of meals.

## Model

| member | source | states |
|---|---|---|
| Folds.Max | hw/block1/lec2/dining-philosophers/dining-philosophers/src/main/java/org/nsu/syspro/parprog/base/DiningTable.java:107-112 | the maximum of a non-empty sequence is one of its elements and at least every element |
| Folds.Min | hw/block1/lec2/dining-philosophers/dining-philosophers/src/main/java/org/nsu/syspro/parprog/base/DiningTable.java:114-119 | the minimum of a non-empty sequence is one of its elements and at most every element |
| Folds.SumAtLeastMin | hw/block1/lec2/dining-philosophers/dining-philosophers/src/main/java/org/nsu/syspro/parprog/base/DiningTable.java:121-125 | a sum is at least the length times the minimum |
| Folds.SumAtMostMax | hw/block1/lec2/dining-philosophers/dining-philosophers/src/main/java/org/nsu/syspro/parprog/base/DiningTable.java:121-125 | a sum is at most the length times the maximum |
| Folds.SumAtLeastElement | hw/block1/lec2/dining-philosophers/dining-philosophers/src/main/java/org/nsu/syspro/parprog/base/DiningTable.java:121-125 | with no negative counts, every element is at most the sum |
| Folds.SumMonotone | hw/block1/lec2/dining-philosophers/dining-philosophers/src/main/java/org/nsu/syspro/parprog/base/DiningTable.java:121-125 | when no count decreases, the sum does not decrease |
| Folds.MinMonotone | hw/block1/lec2/dining-philosophers/dining-philosophers/src/main/java/org/nsu/syspro/parprog/base/DiningTable.java:114-119 | when no count decreases, the minimum does not decrease |
| Folds.MaxMonotone | hw/block1/lec2/dining-philosophers/dining-philosophers/src/main/java/org/nsu/syspro/parprog/base/DiningTable.java:107-112 | when no count decreases, the maximum does not decrease |
| Folds.MinOfRaise | hw/block1/lec2/dining-philosophers/dining-philosophers/src/main/java/org/nsu/syspro/parprog/base/DiningTable.java:59-62 | raising one reported entry, as a publish does, never lowers the minimum the other workers compare against |
| Ring.LeftIndex | hw/block1/lec2/dining-philosophers/dining-philosophers/src/main/java/org/nsu/syspro/parprog/base/DiningTable.java:46 | the left fork of seat i is a fork of the table |
| Ring.RightIndex | hw/block1/lec2/dining-philosophers/dining-philosophers/src/main/java/org/nsu/syspro/parprog/base/DiningTable.java:47 | the right fork of seat i is fork i + 1, except that the last seat wraps around to fork 0 |
| Ring.TwoDistinctForks | hw/block1/lec2/dining-philosophers/dining-philosophers/src/main/java/org/nsu/syspro/parprog/base/DiningTable.java:46-47 | with at least two seats, the left and right fork indices of a seat differ |
| Ring.RightIsNextLeft | hw/block1/lec2/dining-philosophers/dining-philosophers/src/main/java/org/nsu/syspro/parprog/base/DiningTable.java:46-47 | the right fork of seat i is the left fork of seat (i + 1) mod N |
| Ring.ForkSharedByTwo | hw/block1/lec2/dining-philosophers/dining-philosophers/src/main/java/org/nsu/syspro/parprog/base/DiningTable.java:44-47 | each fork index is the left fork of exactly one seat and the right fork of exactly one other seat |
| Throttle.ShouldThrottle | hw/block1/lec2/dining-philosophers/dining-philosophers/src/main/java/org/nsu/syspro/parprog/base/DiningTable.java:59 | the integer test 2(own + count) >= 3 least holds exactly when own + count >= 1.5 least over the rationals |
| Throttle.ThrottlesWhileMinimumIsZero | hw/block1/lec2/dining-philosophers/dining-philosophers/src/main/java/org/nsu/syspro/parprog/base/DiningTable.java:33 | while the minimum reported count is 0, as after construction, every worker throttles |
| Throttle.SlowestThrottlesLate | hw/block1/lec2/dining-philosophers/dining-philosophers/src/main/java/org/nsu/syspro/parprog/base/DiningTable.java:59 | the worker holding a positive minimum throttles only once it has eaten at least half that minimum since publishing |
| Throttle.ThrottleMonotone | hw/block1/lec2/dining-philosophers/dining-philosophers/src/main/java/org/nsu/syspro/parprog/base/DiningTable.java:59 | eating more never turns the throttle off |
| Lifecycle.CheckSize | hw/block1/lec2/dining-philosophers/dining-philosophers/src/main/java/org/nsu/syspro/parprog/base/DiningTable.java:22-24 | a size below 2 gives the too-small error; any other size is accepted |
| Lifecycle.StartStep | hw/block1/lec2/dining-philosophers/dining-philosophers/src/main/java/org/nsu/syspro/parprog/base/DiningTable.java:38-41 | start fails with the restart error exactly when the table has started, including after a stop; otherwise it sets started and leaves the stop flag alone |
| Lifecycle.StopStep | hw/block1/lec2/dining-philosophers/dining-philosophers/src/main/java/org/nsu/syspro/parprog/base/DiningTable.java:79-88 | stop fails with the repeated-stop error when stopped, else with the start-first error when not started; it succeeds exactly when running and then leaves both flags set |
| Lifecycle.AfterWellFormed | hw/block1/lec2/dining-philosophers/dining-philosophers/src/main/java/org/nsu/syspro/parprog/base/DiningTable.java:38-88 | no start or stop call reaches a state where the stop flag is set but started is not |
| Lifecycle.EachTransitionAtMostOnce | hw/block1/lec2/dining-philosophers/dining-philosophers/src/main/java/org/nsu/syspro/parprog/base/DiningTable.java:38-88 | over any trace of calls, start and stop each succeed at most once, and successful stops never outnumber successful starts |
| Lifecycle.NoStopBeforeStart | hw/block1/lec2/dining-philosophers/dining-philosophers/src/main/java/org/nsu/syspro/parprog/base/DiningTable.java:84-86 | from a new table, a trace without a successful start has no successful stop and leaves the table unstarted |
| Lifecycle.ReplayNotStarted | hw/block1/lec2/dining-philosophers/dining-philosophers/src/main/java/org/nsu/syspro/parprog/base/DiningTable.java:38-41 | from a new table, a trace without a successful start leaves both flags down |
| Dining.Philosopher.constructor | hw/block1/lec2/dining-philosophers/dining-philosophers/src/main/java/org/nsu/syspro/parprog/base/DiningTable.java:32 | a philosopher from the factory has eaten nothing |
| Dining.Philosopher.OnHungry | hw/block1/lec2/dining-philosophers/dining-philosophers/src/main/java/org/nsu/syspro/parprog/base/DiningTable.java:70 | one meal raises the philosopher's meal counter by exactly one |
| Dining.Table.constructor | hw/block1/lec2/dining-philosophers/dining-philosophers/src/main/java/org/nsu/syspro/parprog/base/DiningTable.java:21-36 | for size at least 2: N distinct fresh forks in a fresh array, N fresh philosophers with no meals, all reported and local counts 0, neither flag set |
| Dining.Create | hw/block1/lec2/dining-philosophers/dining-philosophers/src/main/java/org/nsu/syspro/parprog/base/DiningTable.java:21-36 | construction throws the too-small error exactly when N < 2; otherwise it yields a valid, unused table with N seats |
| Dining.Table.Meals | hw/block1/lec2/dining-philosophers/dining-philosophers/src/main/java/org/nsu/syspro/parprog/base/DiningTable.java:108-109 | entry k is the meal counter of the philosopher now in seat k |
| Dining.Table.MaxMeals | hw/block1/lec2/dining-philosophers/dining-philosophers/src/main/java/org/nsu/syspro/parprog/base/DiningTable.java:107-112 | maxMeals is the meal count of some seated philosopher and at least everyone's count |
| Dining.Table.MinMeals | hw/block1/lec2/dining-philosophers/dining-philosophers/src/main/java/org/nsu/syspro/parprog/base/DiningTable.java:114-119 | minMeals is the meal count of some seated philosopher, at most everyone's count, and at most maxMeals |
| Dining.Table.TotalMeals | hw/block1/lec2/dining-philosophers/dining-philosophers/src/main/java/org/nsu/syspro/parprog/base/DiningTable.java:121-125 | totalMeals lies between N times minMeals and N times maxMeals, and is at least maxMeals |
| Dining.Table.MinReported | hw/block1/lec2/dining-philosophers/dining-philosophers/src/main/java/org/nsu/syspro/parprog/base/DiningTable.java:136-138 | the comparison value is the smallest entry over all seats, not only the neighbours, and is one of the entries |
| Dining.Table.ForksOf | hw/block1/lec2/dining-philosophers/dining-philosophers/src/main/java/org/nsu/syspro/parprog/base/DiningTable.java:44-47 | seat i eats with fork object i and fork object i + 1 (0 for the last seat), and these are different objects |
| Dining.Table.ForkSharing | hw/block1/lec2/dining-philosophers/dining-philosophers/src/main/java/org/nsu/syspro/parprog/base/DiningTable.java:44-47 | each fork object is the left fork of exactly one seat and the right fork of exactly one other seat |
| Dining.Table.PhilosopherAt | hw/block1/lec2/dining-philosophers/dining-philosophers/src/main/java/org/nsu/syspro/parprog/base/DiningTable.java:99-101 | returns the philosopher in that seat, or the out-of-bounds error for an index outside the table |
| Dining.Table.ForkAt | hw/block1/lec2/dining-philosophers/dining-philosophers/src/main/java/org/nsu/syspro/parprog/base/DiningTable.java:103-105 | returns the fork at that position, or the out-of-bounds error for an index outside the table |
| Dining.Table.SetPhilosopherAt | hw/block1/lec2/dining-philosophers/dining-philosophers/src/main/java/org/nsu/syspro/parprog/base/DiningTable.java:132-134 | replaces exactly that seat when the index is in range and fails with no change otherwise; it is not refused after start, and running workers keep their own philosopher |
| Dining.Table.Start | hw/block1/lec2/dining-philosophers/dining-philosophers/src/main/java/org/nsu/syspro/parprog/base/DiningTable.java:38-77 | the flags change as StartStep says; on success each worker is bound to the philosopher then in its seat |
| Dining.Table.Step | hw/block1/lec2/dining-philosophers/dining-philosophers/src/main/java/org/nsu/syspro/parprog/base/DiningTable.java:53-72 | a worker exits when stopped; otherwise it throttles exactly per ShouldThrottle on its own entry, local count and the table minimum, always when that minimum is 0; a throttle writes own + count (its true meal count) into its own entry only and resets the local count; the local count ends at 1 after a throttle and one higher otherwise; its philosopher eats exactly once; no entry and no meal counter decreases |
| Dining.Table.Stop | hw/block1/lec2/dining-philosophers/dining-philosophers/src/main/java/org/nsu/syspro/parprog/base/DiningTable.java:79-88 | the flags change as StopStep says; the workers' bindings and counts are untouched |
| Dining.AggregatesGrow | hw/block1/lec2/dining-philosophers/dining-philosophers/src/main/java/org/nsu/syspro/parprog/base/DiningTable.java:107-125 | when no meal counter decreases, as across a Step, maxMeals, minMeals and totalMeals do not decrease |

## Left out

- Threads, the thread pool, `synchronized` blocks and `volatile`: a worker iteration is one atomic `Step`. The source reads the shared list in one critical section and publishes in a second. Another worker's publish between the two is not modelled.
- The worker loop's guard checks `executorService.isShutdown()`. `stop()` sets `shouldStop` and shuts the pool down together, so the model uses the single flag `shouldStop`. The wait for termination in `stop()` and its "Stop failed" and "Stop interrupted." errors are not modelled.
- `Thread.sleep(2)` in the throttle branch has no effect on this state and is left out.
- The source compares against `1.5 * min` in `double`. The model uses the exact integer test. It agrees with the `double` comparison while `own + count` and `3 * min` both stay below 2^53; beyond that, rounding of `1.5 * min` can make the two differ.
- Counts are Java `long`; the model uses unbounded integers, so overflow of a count or of `totalMeals` is not modelled.
- `Fork.acquire`/`release` and the body of `Philosopher.onHungry` are not part of this model. A philosopher is reduced to a meal counter that `onHungry` raises by one. Mutual exclusion on forks and deadlock freedom are not proved.
- `createFork` and `createPhilosopher` are abstract factories. The model allocates fresh objects. It assumes a new philosopher has eaten nothing; the concrete philosopher classes are not part of this model.
- The soft fairness bound (no philosopher far ahead of 1.5 times the slowest) depends on timing and is not stated. The throttle only pauses a worker and does not block it.
- `setPhilosopherAt` does not check whether the table has started. The model allows substitution at any time, and a running worker keeps the philosopher it captured in `start()`. `stop()` checks the repeated-stop case before the not-started case.
