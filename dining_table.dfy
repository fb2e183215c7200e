/**
 * The dining table: n forks and n philosophers in a ring, the shared list of
 * meal counts each philosopher last reported, the lifecycle flags, and one
 * iteration of the worker loop that start() runs for every seat.
 *
 * Threads, locks and the thread pool are not modelled: one call of Step is one
 * whole loop iteration of one worker, taken atomically, so any interleaving of
 * the workers' iterations is a sequence of Step calls.
 */
module Dining {

  import opened Errors
  import opened Folds
  import opened Ring
  import opened Throttle
  import opened Lifecycle

  /** A fork. Only its identity matters here; acquiring and releasing it is not modelled. */
  class Fork {
    constructor ()
    {
    }
  }

  /** A philosopher, reduced to its meal counter. */
  class Philosopher {
    var meals: nat

    constructor ()
      ensures meals == 0
    {
      meals := 0;
    }

    /** Eats once with the given forks: the meal counter goes up by exactly one. */
    method OnHungry(left: Fork, right: Fork)
      modifies this
      ensures meals == old(meals) + 1
    {
      meals := meals + 1;
    }
  }

  class Table {
    /** Number of seats. */
    const n: nat
    const forks: array<Fork>
    const phils: array<Philosopher>
    /** Meal count each philosopher last published for the fairness rule. */
    const reported: array<nat>
    /** Each worker's local count of meals eaten since it last published. */
    const pending: array<nat>
    var started: bool
    var shouldStop: bool
    /** The philosopher each worker was bound to when the table started. */
    var diners: seq<Philosopher>
    /** Number of times each worker has called OnHungry. */
    ghost var served: seq<nat>

    ghost predicate Valid()
      reads this, forks, reported, pending
    {
      && n >= 2
      && forks.Length == n && phils.Length == n
      && reported.Length == n && pending.Length == n
      && reported != pending
      && (forall j, k :: 0 <= j < k < n ==> forks[j] != forks[k])
      && WellFormed(Phase(started, shouldStop))
      && (started ==> |diners| == n)
      && |served| == n
      && (forall k :: 0 <= k < n ==> reported[k] + pending[k] == served[k])
    }

    /** The state right after construction: nothing started, nothing eaten, nothing reported. */
    ghost predicate Unused()
      reads this, reported, pending, phils, phils[..]
    {
      && !started && !shouldStop
      && (forall k :: 0 <= k < reported.Length ==> reported[k] == 0)
      && (forall k :: 0 <= k < pending.Length ==> pending[k] == 0)
      && (forall k :: 0 <= k < phils.Length ==> phils[k].meals == 0)
    }

    constructor (size: nat)
      requires size >= 2
      ensures Valid() && Unused() && n == size
      ensures fresh(forks) && fresh(phils) && fresh(reported) && fresh(pending)
      ensures forall k :: 0 <= k < n ==> fresh(forks[k]) && fresh(phils[k])
    {
      var fs: seq<Fork> := [];
      var ps: seq<Philosopher> := [];
      var rs: seq<nat> := [];
      var i := 0;
      while i < size
        invariant i <= size && |fs| == i && |ps| == i && rs == seq(i, _ => 0)
        invariant forall j, k :: 0 <= j < k < i ==> fs[j] != fs[k]
        invariant forall k :: 0 <= k < i ==> fresh(fs[k]) && fresh(ps[k]) && ps[k].meals == 0
      {
        var f := new Fork();
        var p := new Philosopher();
        fs, ps, rs := fs + [f], ps + [p], rs + [0];
        i := i + 1;
      }
      n := size;
      forks := new Fork[size](k requires 0 <= k < size => fs[k]);
      phils := new Philosopher[size](k requires 0 <= k < size => ps[k]);
      reported := new nat[size](k requires 0 <= k < size => rs[k]);
      pending := new nat[size](_ => 0);
      started, shouldStop := false, false;
      diners := [];
      served := seq(size, _ => 0);
    }

    function PhaseOf(): Phase
      reads this
    {
      Phase(started, shouldStop)
    }

    /** The current meal counters of the philosophers in their seats. */
    function Meals(): (m: seq<nat>)
      reads phils, phils[..]
      ensures |m| == phils.Length
      ensures forall k :: 0 <= k < phils.Length ==> m[k] == phils[k].meals
    {
      seq(phils.Length, k requires 0 <= k < phils.Length reads phils, phils[..] => phils[k].meals)
    }

    /** The largest meal count at the table. */
    function MaxMeals(): (r: nat)
      requires Valid()
      reads this, forks, reported, pending, phils, phils[..]
      ensures forall k :: 0 <= k < n ==> phils[k].meals <= r
      ensures exists k :: 0 <= k < n && phils[k].meals == r
    {
      var m := Meals();
      assert Max(m) in m;
      Max(m)
    }

    /** The smallest meal count at the table. */
    function MinMeals(): (r: nat)
      requires Valid()
      reads this, forks, reported, pending, phils, phils[..]
      ensures forall k :: 0 <= k < n ==> r <= phils[k].meals
      ensures exists k :: 0 <= k < n && phils[k].meals == r
      ensures r <= MaxMeals()
    {
      var m := Meals();
      assert Min(m) in m;
      Min(m)
    }

    /** The total of the meal counts at the table. */
    function TotalMeals(): (r: int)
      requires Valid()
      reads this, forks, reported, pending, phils, phils[..]
      ensures n * MinMeals() <= r <= n * MaxMeals()
      ensures MaxMeals() <= r
    {
      var m := Meals();
      SumAtLeastMin(m);
      SumAtMostMax(m);
      SumAtLeastElement(m, MaxIndex());
      Sum(m)
    }

    /** A seat whose philosopher has eaten the most. */
    ghost function MaxIndex(): (k: nat)
      requires Valid()
      reads this, forks, reported, pending, phils, phils[..]
      ensures k < n && phils[k].meals == MaxMeals()
    {
      var k :| 0 <= k < n && phils[k].meals == MaxMeals(); k
    }

    /** The smallest count any philosopher has published. */
    function MinReported(): (r: nat)
      requires Valid()
      reads this, forks, reported, pending
      ensures forall k :: 0 <= k < n ==> r <= reported[k]
      ensures exists k :: 0 <= k < n && reported[k] == r
    {
      var s := reported[..];
      assert Min(s) in s;
      Min(s)
    }

    /** The two forks of seat i: its left fork and its right fork, which differ. */
    function ForksOf(i: nat): (p: (Fork, Fork))
      requires Valid() && i < n
      reads this, forks, reported, pending
      ensures p.0 == forks[i]
      ensures p.1 == forks[if i + 1 < n then i + 1 else 0]
      ensures p.0 != p.1
    {
      (forks[LeftIndex(i, n)], forks[RightIndex(i, n)])
    }

    /**
     * Each fork object of the table is used by exactly two seats: as the left
     * fork of seat f and as the right fork of the seat before it.
     */
    lemma ForkSharing(f: nat)
      requires Valid() && f < n
      ensures forall i :: 0 <= i < n ==> (ForksOf(i).0 == forks[f] <==> i == f)
      ensures forall i :: 0 <= i < n ==> (ForksOf(i).1 == forks[f] <==> i == RightUser(f, n))
      ensures RightUser(f, n) != f
    {
    }

    /** The philosopher in seat index, or the exception for a seat outside the table. */
    function PhilosopherAt(index: int): (r: Result<Philosopher, TableError>)
      reads phils
      ensures r.Ok? <==> 0 <= index < phils.Length
      ensures r.Ok? ==> r.value == phils[index]
      ensures r.Err? ==> r.error == OutOfBounds
    {
      if 0 <= index < phils.Length then Ok(phils[index]) else Err(OutOfBounds)
    }

    /** The fork at position index, or the exception for a position outside the table. */
    function ForkAt(index: int): (r: Result<Fork, TableError>)
      reads forks
      ensures r.Ok? <==> 0 <= index < forks.Length
      ensures r.Ok? ==> r.value == forks[index]
      ensures r.Err? ==> r.error == OutOfBounds
    {
      if 0 <= index < forks.Length then Ok(forks[index]) else Err(OutOfBounds)
    }

    /** Seats another philosopher; a worker already running keeps the philosopher it was bound to. */
    method SetPhilosopherAt(index: int, p: Philosopher) returns (r: Outcome<TableError>)
      requires Valid()
      modifies phils
      ensures Valid()
      ensures r == Pass <==> 0 <= index < n
      ensures r.Fail? ==> r.error == OutOfBounds
      ensures phils[..] == if r == Pass then old(phils[..])[index := p] else old(phils[..])
    {
      if 0 <= index < phils.Length {
        phils[index] := p;
        r := Pass;
      } else {
        r := Fail(OutOfBounds);
      }
    }

    /**
     * start(): fails if the table was ever started; otherwise binds one worker
     * to each seat's philosopher (its forks are fixed by ForksOf) and marks the
     * table started.
     */
    method Start() returns (r: Result<Phase, TableError>)
      requires Valid()
      modifies this
      ensures Valid()
      ensures r == StartStep(old(PhaseOf()))
      ensures PhaseOf() == After(old(PhaseOf()), StartCall)
      ensures diners == if r.Ok? then phils[..] else old(diners)
      ensures served == old(served)
    {
      if started {
        return Err(Restart);
      }
      var workers: seq<Philosopher> := [];
      for i := 0 to n
        invariant workers == phils[..i]
      {
        workers := workers + [phils[i]];
      }
      diners := workers;
      started := true;
      r := Ok(PhaseOf());
    }

    /**
     * One iteration of worker i's loop. The worker exits instead when the stop
     * signal is up. Otherwise it reads its own reported count and the minimum of
     * all reported counts; if it is ahead by the fairness rule it publishes its
     * true count and resets its local count (and pauses, which has no effect on
     * this state); then its philosopher eats once and the local count goes up.
     */
    method Step(i: nat) returns (ran: bool, throttled: bool)
      requires Valid() && started && i < n
      modifies this, reported, pending, diners[i]
      ensures Valid()
      ensures PhaseOf() == old(PhaseOf()) && diners == old(diners)
      ensures ran == !shouldStop
      ensures throttled == (ran && ShouldThrottle(old(reported[i]), old(pending[i]), old(MinReported())))
      ensures ran && old(MinReported()) == 0 ==> throttled
      ensures throttled ==> reported[..] == old(reported[..])[i := old(reported[i]) + old(pending[i])]
      ensures !throttled ==> reported[..] == old(reported[..])
      ensures throttled ==> reported[i] == old(served[i])
      ensures pending[..] == if !ran then old(pending[..])
                             else old(pending[..])[i := if throttled then 1 else old(pending[i]) + 1]
      ensures served == if ran then old(served)[i := old(served[i]) + 1] else old(served)
      ensures diners[i].meals == old(diners[i].meals) + (if ran then 1 else 0)
      ensures PointwiseLe(old(reported[..]), reported[..])
      ensures forall k :: 0 <= k < n ==>
        phils[k].meals == old(phils[k].meals) + (if ran && phils[k] == diners[i] then 1 else 0)
      ensures PointwiseLe(old(Meals()), Meals())
    {
      if shouldStop {
        return false, false;
      }
      var (left, right) := ForksOf(i);
      var startNum := reported[i];
      var least := MinReported();
      var count := pending[i];
      ghost var eaten := served[i];
      throttled := ShouldThrottle(startNum, count, least);
      if least == 0 {
        ThrottlesWhileMinimumIsZero(startNum, count);
      }
      if throttled {
        reported[i] := startNum + count;
        count := 0;
      }
      ghost var published := reported[..];
      assert published == if throttled then old(reported[..])[i := startNum + pending[i]] else old(reported[..]);
      diners[i].OnHungry(left, right);
      pending[i] := count + 1;
      served := served[i := eaten + 1];
      ran := true;
      assert reported[..] == published;
    }

    /**
     * stop(): fails with the repeated-stop error first, then with the
     * start-first error; otherwise raises the stop signal, after which every
     * worker's Step exits without eating.
     */
    method Stop() returns (r: Result<Phase, TableError>)
      requires Valid()
      modifies this
      ensures Valid()
      ensures r == StopStep(old(PhaseOf()))
      ensures PhaseOf() == After(old(PhaseOf()), StopCall)
      ensures diners == old(diners) && served == old(served)
    {
      if shouldStop {
        return Err(RepeatedStop);
      }
      if !started {
        return Err(StartFirst);
      }
      shouldStop := true;
      r := Ok(PhaseOf());
    }
  }

  /** When every meal count grows or stays, so do the maximum, minimum and sum. */
  lemma AggregatesGrow(before: seq<int>, after: seq<int>)
    requires |before| > 0 && PointwiseLe(before, after)
    ensures Min(before) <= Min(after) && Max(before) <= Max(after) && Sum(before) <= Sum(after)
  {
    MinMonotone(before, after);
    MaxMonotone(before, after);
    SumMonotone(before, after);
  }

  /**
   * Construction: a size below two is rejected with the too-small error;
   * otherwise the table has that many seats and starts unused.
   */
  method Create(size: int) returns (r: Result<Table, TableError>)
    ensures r.Err? <==> size < 2
    ensures r.Err? ==> r.error == TooSmall
    ensures r.Ok? ==> fresh(r.value) && r.value.Valid() && r.value.Unused() && r.value.n == size
    ensures r.Ok? ==> fresh(r.value.reported) && fresh(r.value.pending) && fresh(r.value.phils)
    ensures r.Ok? ==> forall k :: 0 <= k < r.value.n ==> fresh(r.value.phils[k])
  {
    match CheckSize(size)
    case Err(e) =>
      r := Err(e);
    case Ok(m) =>
      var t := new Table(m);
      r := Ok(t);
  }
}

/** A client scenario for a two-seat table, using only the contracts above. */
module DiningScenario {

  import opened Errors
  import opened Lifecycle
  import opened Dining

  method TwoSeatRun()
  {
    var tooSmall := Create(1);
    assert tooSmall == Err(TooSmall);
    var created := Create(2);
    var t := created.value;
    var stopEarly := t.Stop();
    assert stopEarly == Err(StartFirst);
    var started := t.Start();
    assert started.Ok?;
    var restart := t.Start();
    assert restart == Err(Restart);
    // Nothing has been reported yet, so both workers publish on their first iteration.
    var ran0, throttled0 := t.Step(0);
    assert ran0 && throttled0;
    assert t.reported[0] == 0 && t.pending[0] == 1;
    var stopped := t.Stop();
    assert stopped.Ok?;
    var ran1, throttled1 := t.Step(1);
    assert !ran1 && !throttled1;
    var again := t.Stop();
    assert again == Err(RepeatedStop);
  }
}
