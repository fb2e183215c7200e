/**
 * The size check and the lifecycle of the table: a table is not
 * started, then running, then stopped. Each of start and stop succeeds at most
 * once, stop only after start; a call that breaks the order fails and leaves
 * the flags as they were.
 */
module Lifecycle {

  import opened Errors

  /** The two lifecycle flags of the table. */
  datatype Phase = Phase(started: bool, shouldStop: bool)

  const Initial := Phase(false, false)

  /** The flags can only be in one of the three legal states. */
  predicate WellFormed(p: Phase)
  {
    p.shouldStop ==> p.started
  }

  /** Size check of the constructor: a table needs at least two seats. */
  function CheckSize(n: int): (r: Result<nat, TableError>)
    ensures r.Err? <==> n < 2
    ensures r.Err? ==> r.error == TooSmall
    ensures r.Ok? ==> r.value == n && r.value >= 2
  {
    if n < 2 then Err(TooSmall) else Ok(n)
  }

  /** The flag check and update of start(). */
  function StartStep(p: Phase): (r: Result<Phase, TableError>)
    ensures r.Err? <==> p.started
    ensures r.Err? ==> r.error == Restart
    ensures r.Ok? ==> r.value.started && r.value.shouldStop == p.shouldStop
  {
    if p.started then Err(Restart) else Ok(p.(started := true))
  }

  /** The flag checks and update of stop(): the repeated-stop check comes first. */
  function StopStep(p: Phase): (r: Result<Phase, TableError>)
    ensures p.shouldStop ==> r == Err(RepeatedStop)
    ensures !p.shouldStop && !p.started ==> r == Err(StartFirst)
    ensures r.Ok? <==> p.started && !p.shouldStop
    ensures r.Ok? ==> r.value == Phase(true, true)
  {
    if p.shouldStop then Err(RepeatedStop)
    else if !p.started then Err(StartFirst)
    else Ok(p.(shouldStop := true))
  }

  datatype Call = StartCall | StopCall

  function Apply(p: Phase, c: Call): Result<Phase, TableError>
  {
    match c
    case StartCall => StartStep(p)
    case StopCall => StopStep(p)
  }

  /** The flags after a call: unchanged when the call throws. */
  function After(p: Phase, c: Call): Phase
  {
    var r := Apply(p, c);
    if r.Ok? then r.value else p
  }

  /** Every call keeps the flags in a legal state. */
  lemma AfterWellFormed(p: Phase, c: Call)
    requires WellFormed(p)
    ensures WellFormed(After(p, c))
  {
  }

  /** Number of calls of kind c in the trace that succeed, starting from phase p. */
  function Accepted(p: Phase, calls: seq<Call>, c: Call): nat
    decreases |calls|
  {
    if calls == [] then 0
    else
      (if calls[0] == c && Apply(p, calls[0]).Ok? then 1 else 0)
      + Accepted(After(p, calls[0]), calls[1..], c)
  }

  /** The flags after a whole trace of calls. */
  function Replay(p: Phase, calls: seq<Call>): Phase
    decreases |calls|
  {
    if calls == [] then p else Replay(After(p, calls[0]), calls[1..])
  }

  /**
   * Over any trace of lifecycle calls: start succeeds at most once and never
   * once the table has started; stop succeeds at most once and never once
   * stopped; and a trace never has more successful stops than successful starts,
   * unless the table was already running when it began. Since this holds for
   * every prefix of a trace too, each successful stop follows a successful start.
   */
  lemma {:induction false} EachTransitionAtMostOnce(p: Phase, calls: seq<Call>)
    requires WellFormed(p)
    ensures WellFormed(Replay(p, calls))
    ensures Accepted(p, calls, StartCall) <= (if p.started then 0 else 1)
    ensures Accepted(p, calls, StopCall) <= (if p.shouldStop then 0 else 1)
    ensures Accepted(p, calls, StopCall)
         <= Accepted(p, calls, StartCall) + (if p.started && !p.shouldStop then 1 else 0)
    decreases |calls|
  {
    if calls != [] {
      var q := After(p, calls[0]);
      AfterWellFormed(p, calls[0]);
      EachTransitionAtMostOnce(q, calls[1..]);
    }
  }

  /** From a fresh table, no trace stops it without starting it first. */
  lemma NoStopBeforeStart(calls: seq<Call>)
    requires Accepted(Initial, calls, StartCall) == 0
    ensures Accepted(Initial, calls, StopCall) == 0
    ensures !Replay(Initial, calls).started && !Replay(Initial, calls).shouldStop
  {
    EachTransitionAtMostOnce(Initial, calls);
    ReplayNotStarted(Initial, calls);
  }

  /** Without a successful start the flags stay where they were. */
  lemma {:induction false} ReplayNotStarted(p: Phase, calls: seq<Call>)
    requires p == Initial && Accepted(p, calls, StartCall) == 0
    ensures Replay(p, calls) == Initial
    decreases |calls|
  {
    if calls != [] {
      assert After(p, calls[0]) == Initial;
      ReplayNotStarted(After(p, calls[0]), calls[1..]);
    }
  }
}
