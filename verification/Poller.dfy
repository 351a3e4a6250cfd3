/** The handler slots of the queue poller (pkg/sqs/sqs.go, Poll and validateConfig). */
module Poller {
  import opened Common

  datatype Config = Config(
    awsRegion: string,
    endpoint: string,
    queueUrl: string,
    queueName: string,
    batchSize: int,
    waitSeconds: int,
    visibilityTimeout: int,
    maxHandlers: int,
    runOnce: bool,
    hasHandler: bool)

  predicate ValidConfig(c: Config) {
    && c.awsRegion != ""
    && (c.endpoint != "" || c.queueUrl != "")
    && (c.queueName != "" || c.queueUrl != "")
    && 0 <= c.batchSize <= 10
    && 0 <= c.waitSeconds <= 20
    && 0 <= c.visibilityTimeout <= 43200
  }

  /** Where the polling loop stands: before the capacity check, waiting for a reply to
      a receive of at most `asked` messages, starting handlers for the messages that are
      left, waiting for the wait group, or back at the caller. */
  datatype Position =
    | Top
    | Receiving(asked: int)
    | Spawning(left: nat)
    | Draining
    | Returned

  /** `count` is handlerCount; `running` is how many handlers are in flight. */
  datatype State = State(count: int, running: int, at: Position)

  const INITIAL := State(0, 0, Top)

  datatype Step = Check | Reply(messages: nat) | ReceiveError | Spawn | EndBatch | Finish | Return

  predicate AtCapacity(c: Config, s: State) {
    c.maxHandlers > 0 && s.count >= c.maxHandlers
  }

  /** The number of messages that the next receive asks for. */
  function MaxMessages(c: Config, s: State): int {
    if c.maxHandlers > 0 && c.maxHandlers - s.count < c.batchSize then c.maxHandlers - s.count else c.batchSize
  }

  /** The queue returns at most as many messages as were asked for; a handler may
      finish at any moment. */
  predicate Enabled(c: Config, s: State, step: Step) {
    match step
    case Check => s.at.Top? && !AtCapacity(c, s)
    case Reply(n) => s.at.Receiving? && n <= s.at.asked
    case ReceiveError => s.at.Receiving?
    case Spawn => s.at.Spawning? && s.at.left > 0
    case EndBatch => s.at == Spawning(0)
    case Finish => s.running > 0
    case Return => s.at.Draining? && s.running == 0
  }

  function Apply(c: Config, s: State, step: Step): State
    requires Enabled(c, s, step)
  {
    match step
    case Check => s.(at := Receiving(MaxMessages(c, s)))
    case Reply(n) => s.(at := Spawning(n))
    case ReceiveError => s.(at := Draining)
    case Spawn =>
      var next := Spawning(s.at.left - 1);
      if c.hasHandler then State(s.count + 1, s.running + 1, next) else s.(at := next)
    case EndBatch => s.(at := if c.runOnce then Draining else Top)
    case Finish => s.(count := s.count - 1, running := s.running - 1)
    case Return => s.(at := Returned)
  }

  /** A receive asks for the smaller of the batch size and the free slots, or for a batch if
      there is no maximum. */
  lemma AsksForTheSmaller(c: Config, s: State)
    ensures c.maxHandlers > 0 ==>
      && MaxMessages(c, s) <= c.batchSize && MaxMessages(c, s) <= c.maxHandlers - s.count
      && (MaxMessages(c, s) == c.batchSize || MaxMessages(c, s) == c.maxHandlers - s.count)
    ensures c.maxHandlers <= 0 ==> MaxMessages(c, s) == c.batchSize
  {
  }

  /** Slots promised to messages that have been asked for or received. */
  function Promised(s: State): int {
    match s.at
    case Receiving(asked) => asked
    case Spawning(left) => left
    case _ => 0
  }

  /** The counter counts the handlers in flight, and together with the promised slots
      they fit the maximum; no receive asks for more than a batch. */
  predicate Inv(c: Config, s: State) {
    && s.count == s.running >= 0
    && Promised(s) >= 0
    && (c.maxHandlers > 0 ==> s.running + Promised(s) <= c.maxHandlers)
    && (s.at.Receiving? ==> s.at.asked <= c.batchSize)
    && (s.at.Returned? ==> s.running == 0)
  }

  predicate Reaches(c: Config, s: State, steps: seq<Step>, end: State)
    decreases |steps|
  {
    if steps == [] then s == end
    else Enabled(c, s, steps[0]) && Reaches(c, Apply(c, s, steps[0]), steps[1..], end)
  }

  lemma {:induction false} InvHolds(c: Config, s: State, steps: seq<Step>, end: State)
    requires 0 <= c.batchSize
    requires Inv(c, s) && Reaches(c, s, steps, end)
    ensures Inv(c, end)
    decreases |steps|
  {
    if steps != [] {
      InvHolds(c, Apply(c, s, steps[0]), steps[1..], end);
    }
  }

  /** In every interleaving of the polling loop and handler completions the counter is
      the number of handlers in flight and stays between zero and the maximum, a receive
      asks for no more than the batch size and the free slots, and when Poll has
      returned no handler is running. */
  lemma HandlerSlots(c: Config, steps: seq<Step>, end: State)
    requires ValidConfig(c)
    requires Reaches(c, INITIAL, steps, end)
    ensures end.count == end.running && 0 <= end.count
    ensures c.maxHandlers > 0 ==> end.count <= c.maxHandlers
    ensures end.at.Receiving? ==> 0 <= end.at.asked <= c.batchSize
    ensures end.at.Receiving? && c.maxHandlers > 0 ==> end.at.asked <= c.maxHandlers - end.running
    ensures end.at.Returned? ==> end.running == 0
  {
    InvHolds(c, INITIAL, steps, end);
  }

  /** After a receive error, and after the batch of a poller that runs once, no further
      receive is made: Poll only waits for its handlers and returns. */
  lemma PollEnds(c: Config, s: State, step: Step, steps: seq<Step>, end: State)
    requires Enabled(c, s, step) && (step == ReceiveError || (step == EndBatch && c.runOnce))
    requires Reaches(c, Apply(c, s, step), steps, end)
    ensures end.at.Draining? || (end.at.Returned? && end.running == 0)
  {
    StaysDrained(c, Apply(c, s, step), steps, end);
  }

  lemma {:induction false} StaysDrained(c: Config, s: State, steps: seq<Step>, end: State)
    requires s.at.Draining? || (s.at.Returned? && s.running == 0)
    requires Reaches(c, s, steps, end)
    ensures end.at.Draining? || (end.at.Returned? && end.running == 0)
    decreases |steps|
  {
    if steps != [] {
      StaysDrained(c, Apply(c, s, steps[0]), steps[1..], end);
    }
  }

  /** A receive asks for at least one message exactly when the batch size is not zero,
      a value that the validation lets pass. */
  lemma AsksForSomething(c: Config, s: State)
    requires ValidConfig(c) && Inv(c, s) && Enabled(c, s, Check)
    ensures MaxMessages(c, s) >= 1 <==> c.batchSize != 0
  {
  }
}

/** The same loop with the counter as the source has it: the increment is not under the
    mutex that the decrements share, and each of them is a read and a write. */
module CounterRace {
  import opened Common
  import opened Poller

  /** An increment or decrement between its read and its write: what it read, by how much
      that was too high, and how many writes of the other side have come since. */
  datatype Access = Access(read: int, drift: int, overtaken: nat)

  /** At most one handler is inside its decrement, thanks to the mutex. */
  datatype RaceState = RaceState(
    count: int,
    running: int,
    at: Position,
    increment: Option<Access>,
    decrement: Option<Access>)

  const START := RaceState(0, 0, Top, None, None)

  datatype RaceStep =
    | Ask
    | Receive(messages: nat)
    | Fail
    | Skip
    | SpawnRead
    | SpawnWrite
    | EndOfBatch
    | FinishRead
    | FinishWrite
    | Leave

  function Plain(s: RaceState): State {
    State(s.count, s.running, s.at)
  }

  predicate CanStep(c: Config, s: RaceState, step: RaceStep) {
    match step
    case Ask => s.at.Top? && !AtCapacity(c, Plain(s))
    case Receive(n) => s.at.Receiving? && n <= s.at.asked
    case Fail => s.at.Receiving?
    case Skip => s.at.Spawning? && s.at.left > 0 && !c.hasHandler && s.increment.None?
    case SpawnRead => s.at.Spawning? && s.at.left > 0 && c.hasHandler && s.increment.None?
    case SpawnWrite => s.at.Spawning? && s.at.left > 0 && s.increment.Some?
    case EndOfBatch => s.at == Spawning(0)
    case FinishRead => s.running > 0 && s.decrement.None?
    case FinishWrite => s.decrement.Some?
    case Leave => s.at.Draining? && s.running == 0
  }

  function Overtake(a: Option<Access>): Option<Access> {
    if a.None? then None else Some(a.value.(overtaken := a.value.overtaken + 1))
  }

  function Do(c: Config, s: RaceState, step: RaceStep): RaceState
    requires CanStep(c, s, step)
  {
    match step
    case Ask => s.(at := Receiving(MaxMessages(c, Plain(s))))
    case Receive(n) => s.(at := Spawning(n))
    case Fail => s.(at := Draining)
    case Skip => s.(at := Spawning(s.at.left - 1))
    case SpawnRead => s.(increment := Some(Access(s.count, s.count - s.running, 0)))
    case SpawnWrite =>
      RaceState(s.increment.value.read + 1, s.running + 1, Spawning(s.at.left - 1), None, Overtake(s.decrement))
    case EndOfBatch => s.(at := if c.runOnce then Draining else Top)
    case FinishRead => s.(decrement := Some(Access(s.count, s.count - s.running, 0)))
    case FinishWrite =>
      RaceState(s.decrement.value.read - 1, s.running - 1, s.at, Overtake(s.increment), None)
    case Leave => s.(at := Returned)
  }

  predicate Possible(c: Config, s: RaceState, steps: seq<RaceStep>)
    decreases |steps|
  {
    steps == [] || (CanStep(c, s, steps[0]) && Possible(c, Do(c, s, steps[0]), steps[1..]))
  }

  function Final(c: Config, s: RaceState, steps: seq<RaceStep>): RaceState
    requires Possible(c, s, steps)
    decreases |steps|
  {
    if steps == [] then s else Final(c, Do(c, s, steps[0]), steps[1..])
  }

  // ---- When the counter is exact ------------------------------------------------------------

  /** What an access has read, and how it relates to the handlers running now. */
  predicate Tracks(s: RaceState) {
    && (s.increment.Some? ==>
          var a := s.increment.value; a.read - a.drift == s.running + a.overtaken)
    && (s.decrement.Some? ==>
          var a := s.decrement.value; a.read - a.drift == s.running - a.overtaken && s.running > a.overtaken)
  }

  lemma {:induction false} RunTracks(c: Config, s: RaceState, steps: seq<RaceStep>)
    requires Tracks(s) && Possible(c, s, steps)
    ensures Tracks(Final(c, s, steps))
    decreases |steps|
  {
    if steps != [] {
      RunTracks(c, Do(c, s, steps[0]), steps[1..]);
    }
  }

  /** In every reachable state: an increment leaves the counter too high by what it was
      when read plus the decrements written since; a decrement leaves it too low by the
      increments written since. Whatever the other side did in between is undone. */
  lemma WriteDrift(c: Config, steps: seq<RaceStep>, step: RaceStep)
    requires Possible(c, START, steps) && CanStep(c, Final(c, START, steps), step)
    ensures
      var s := Final(c, START, steps);
      var t := Do(c, s, step);
      && (step.SpawnWrite? ==> t.count - t.running == s.increment.value.drift + s.increment.value.overtaken)
      && (step.FinishWrite? ==> t.count - t.running == s.decrement.value.drift - s.decrement.value.overtaken)
  {
    RunTracks(c, START, steps);
  }

  /** The write comes after a write of the other side that it has not read. */
  predicate Overtaken(s: RaceState, step: RaceStep) {
    || (step.SpawnWrite? && s.increment.Some? && s.increment.value.overtaken > 0)
    || (step.FinishWrite? && s.decrement.Some? && s.decrement.value.overtaken > 0)
  }

  predicate NoneOvertaken(c: Config, s: RaceState, steps: seq<RaceStep>)
    requires Possible(c, s, steps)
    decreases |steps|
  {
    steps == [] || (!Overtaken(s, steps[0]) && NoneOvertaken(c, Do(c, s, steps[0]), steps[1..]))
  }

  /** The counter is the number of running handlers in all states along the steps. */
  predicate AlwaysExact(c: Config, s: RaceState, steps: seq<RaceStep>)
    requires Possible(c, s, steps)
    decreases |steps|
  {
    s.count == s.running && (steps == [] || AlwaysExact(c, Do(c, s, steps[0]), steps[1..]))
  }

  /** The counter is exact, and was when the accesses under way read it. */
  predicate Sound(s: RaceState) {
    && Tracks(s) && s.count == s.running
    && (s.increment.Some? ==> s.increment.value.drift == 0)
    && (s.decrement.Some? ==> s.decrement.value.drift == 0)
  }

  lemma {:induction false} ExactFrom(c: Config, s: RaceState, steps: seq<RaceStep>)
    requires Sound(s) && Possible(c, s, steps)
    ensures AlwaysExact(c, s, steps) <==> NoneOvertaken(c, s, steps)
    decreases |steps|
  {
    if steps != [] {
      var t := Do(c, s, steps[0]);
      if Overtaken(s, steps[0]) {
        assert t.count != t.running;
      } else {
        ExactFrom(c, t, steps[1..]);
      }
    }
  }

  /** Along every run the counter is exact all the way if and only if no increment or
      decrement writes over one that it has not read. */
  lemma ExactIffNoneOvertaken(c: Config, steps: seq<RaceStep>)
    requires Possible(c, START, steps)
    ensures AlwaysExact(c, START, steps) <==> NoneOvertaken(c, START, steps)
  {
    ExactFrom(c, START, steps);
  }

  lemma {:induction false} SlotsFrom(c: Config, s: RaceState, steps: seq<RaceStep>)
    requires ValidConfig(c) && Sound(s) && Inv(c, Plain(s))
    requires Possible(c, s, steps) && NoneOvertaken(c, s, steps)
    ensures Inv(c, Plain(Final(c, s, steps)))
    decreases |steps|
  {
    if steps != [] {
      SlotsFrom(c, Do(c, s, steps[0]), steps[1..]);
    }
  }

  /** And then everything that an atomic counter gives holds of the run. */
  lemma SlotsHoldIfNoneOvertaken(c: Config, steps: seq<RaceStep>)
    requires ValidConfig(c) && Possible(c, START, steps) && NoneOvertaken(c, START, steps)
    ensures Inv(c, Plain(Final(c, START, steps)))
  {
    SlotsFrom(c, START, steps);
  }

  // ---- When the maximum can be exceeded -----------------------------------------------------

  ghost predicate Reachable(c: Config, s: RaceState) {
    exists steps :: Possible(c, START, steps) && Final(c, START, steps) == s
  }

  lemma {:induction false} StepsAppend(c: Config, s: RaceState, a: seq<RaceStep>, b: seq<RaceStep>)
    requires Possible(c, s, a) && Possible(c, Final(c, s, a), b)
    ensures Possible(c, s, a + b) && Final(c, s, a + b) == Final(c, Final(c, s, a), b)
    decreases |a|
  {
    if a == [] {
      assert a + b == b;
    } else {
      assert (a + b)[1..] == a[1..] + b;
      StepsAppend(c, Do(c, s, a[0]), a[1..], b);
    }
  }

  lemma ReachStep(c: Config, s: RaceState, step: RaceStep)
    requires Reachable(c, s) && CanStep(c, s, step)
    ensures Reachable(c, Do(c, s, step))
  {
    var steps :| Possible(c, START, steps) && Final(c, START, steps) == s;
    assert [step][1..] == [] && Possible(c, s, [step]);
    StepsAppend(c, START, steps, [step]);
  }

  /** Between batches, with the given counter and handlers. */
  function Between(count: int, running: int): RaceState {
    RaceState(count, running, Top, None, None)
  }

  predicate Polls(c: Config) {
    ValidConfig(c) && c.batchSize >= 1 && c.hasHandler && !c.runOnce
  }

  /** A receive of one message. */
  lemma ReachMessage(c: Config, count: int, running: int)
    requires Polls(c) && count < c.maxHandlers && Reachable(c, Between(count, running))
    ensures Reachable(c, RaceState(count, running, Spawning(1), None, None))
  {
    var s := Between(count, running);
    ReachStep(c, s, Ask);
    ReachStep(c, Do(c, s, Ask), Receive(1));
  }

  /** A batch of one message, undisturbed. */
  lemma ReachOneMore(c: Config, count: int, running: int)
    requires Polls(c) && count < c.maxHandlers && Reachable(c, Between(count, running))
    ensures Reachable(c, Between(count + 1, running + 1))
  {
    ReachMessage(c, count, running);
    var s0 := RaceState(count, running, Spawning(1), None, None);
    var s1 := Do(c, s0, SpawnRead);
    var s2 := Do(c, s1, SpawnWrite);
    ReachStep(c, s0, SpawnRead);
    ReachStep(c, s1, SpawnWrite);
    ReachStep(c, s2, EndOfBatch);
  }

  /** A batch of one message that is spawned inside a decrement: the increment is lost. */
  lemma ReachLostIncrement(c: Config)
    requires Polls(c) && c.maxHandlers >= 2
    ensures Reachable(c, Between(0, 1))
  {
    assert Possible(c, START, []) && Final(c, START, []) == Between(0, 0);
    ReachOneMore(c, 0, 0);
    ReachMessage(c, 1, 1);
    var s0 := RaceState(1, 1, Spawning(1), None, None);
    var s1 := Do(c, s0, FinishRead);
    var s2 := Do(c, s1, SpawnRead);
    var s3 := Do(c, s2, SpawnWrite);
    var s4 := Do(c, s3, FinishWrite);
    ReachStep(c, s0, FinishRead);
    ReachStep(c, s1, SpawnRead);
    ReachStep(c, s2, SpawnWrite);
    ReachStep(c, s3, FinishWrite);
    ReachStep(c, s4, EndOfBatch);
  }

  lemma {:induction false} ReachTooMany(c: Config, n: nat)
    requires Polls(c) && 2 <= c.maxHandlers && n <= c.maxHandlers
    ensures Reachable(c, Between(n, n + 1))
  {
    if n == 0 {
      ReachLostIncrement(c);
    } else {
      ReachTooMany(c, n - 1);
      ReachOneMore(c, n - 1, n);
    }
  }

  /** With one slot the loop spawns only when nothing runs, so nothing overlaps. */
  predicate OneAtATime(s: RaceState) {
    && s.count == s.running && 0 <= s.running && 0 <= Promised(Plain(s)) && s.running + Promised(Plain(s)) <= 1
    && (s.increment.Some? ==> s.increment.value.read == 0 && s.at == Spawning(1))
    && (s.decrement.Some? ==> s.decrement.value.read == 1 && s.running == 1)
  }

  lemma {:induction false} OneSlotHolds(c: Config, s: RaceState, steps: seq<RaceStep>)
    requires ValidConfig(c) && c.maxHandlers == 1 && OneAtATime(s) && Possible(c, s, steps)
    ensures OneAtATime(Final(c, s, steps))
    decreases |steps|
  {
    if steps != [] {
      OneSlotHolds(c, Do(c, s, steps[0]), steps[1..]);
    }
  }

  /** Without messages or without a handler nothing is ever spawned. */
  predicate Idle(s: RaceState) {
    s.count == 0 && s.running == 0 && s.increment.None? && s.decrement.None?
  }

  lemma {:induction false} IdleHolds(c: Config, s: RaceState, steps: seq<RaceStep>)
    requires ValidConfig(c) && (c.batchSize == 0 || !c.hasHandler)
    requires Idle(s) && (c.batchSize == 0 ==> Promised(Plain(s)) <= 0) && Possible(c, s, steps)
    ensures Idle(Final(c, s, steps))
    decreases |steps|
  {
    if steps != [] {
      IdleHolds(c, Do(c, s, steps[0]), steps[1..]);
    }
  }

  /** A poller that runs once makes one receive, on an exact counter. */
  predicate FirstBatch(c: Config, s: RaceState) {
    && 0 <= s.running
    && (s.at.Top? ==> s.count == 0 && s.running == 0)
    && s.running + Promised(Plain(s)) <= c.maxHandlers
    && (s.at.Receiving? || s.at.Spawning? ==> 0 <= Promised(Plain(s)))
    && (s.increment.Some? ==> s.at.Spawning? && s.at.left > 0)
    && (s.decrement.Some? ==> s.running > 0)
  }

  lemma {:induction false} FirstBatchHolds(c: Config, s: RaceState, steps: seq<RaceStep>)
    requires ValidConfig(c) && c.maxHandlers > 0 && c.runOnce && FirstBatch(c, s) && Possible(c, s, steps)
    ensures FirstBatch(c, Final(c, s, steps))
    decreases |steps|
  {
    if steps != [] {
      FirstBatchHolds(c, Do(c, s, steps[0]), steps[1..]);
    }
  }

  /** Some interleaving runs more handlers than the maximum if and only if the maximum is
      at least two and the poller keeps polling for messages that it handles. */
  lemma MaximumCanBeExceeded(c: Config)
    requires ValidConfig(c) && c.maxHandlers > 0
    ensures (exists s :: Reachable(c, s) && s.running > c.maxHandlers) <==> Polls(c) && c.maxHandlers >= 2
  {
    if Polls(c) && c.maxHandlers >= 2 {
      ReachTooMany(c, c.maxHandlers);
      assert Between(c.maxHandlers, c.maxHandlers + 1).running > c.maxHandlers;
    } else {
      forall s | Reachable(c, s) ensures s.running <= c.maxHandlers {
        var steps :| Possible(c, START, steps) && Final(c, START, steps) == s;
        if c.maxHandlers == 1 {
          OneSlotHolds(c, START, steps);
        } else if c.runOnce {
          FirstBatchHolds(c, START, steps);
        } else {
          IdleHolds(c, START, steps);
        }
      }
    }
  }
}
