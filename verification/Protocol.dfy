/** The update protocol as a state machine: an at-least-once queue, callbacks in any
    interleaving and with any faults, the table, the tagged response cache and a clock
    (cmd/apiserver/apiserver.go, pkg/apiserver/web/cache.go). */
module Protocol {
  import opened Common
  import opened Registry
  import opened UpdateHandler
  import opened Url
  import opened Listing
  import opened Api

  /** How far a queue callback has come: it is about to handle its message, about to
      delete it, or about to invalidate the cache. */
  datatype Phase = Received | Applied | Removed

  datatype Flight = Flight(msg: Message, phase: Phase)

  /** A GET that missed the cache: its response is computed but not yet stored. */
  datatype Read = Read(key: Request, body: Response)

  datatype Entry = Entry(body: Response, storedAt: nat)

  datatype State = State(
    queue: multiset<Message>,
    flights: multiset<Flight>,
    table: Table,
    cache: map<Request, Entry>,
    pending: multiset<Read>,
    clock: nat)

  /** The list handler as a function of the canonical request and the table, and the
      cache's time to live; zero means that entries do not expire. */
  datatype Config = Config(respond: (Request, Table) -> Response, ttl: nat)

  datatype DeleteOutcome = Deleted | NotDeleted | DeletedUnacknowledged

  datatype Step =
    | Send(msg: Message)
    | Deliver(msg: Message)
    | HandleStep(msg: Message, faults: Faults)
    | Delete(msg: Message, outcome: DeleteOutcome)
    | Invalidate(msg: Message, ok: bool)
    | Hit(key: Request)
    | Miss(key: Request)
    | Store(read: Read, ok: bool)
    | Expire(key: Request)
    | Tick(elapsed: nat)

  predicate Live(cfg: Config, s: State, key: Request) {
    key in s.cache && (cfg.ttl == 0 || s.clock < s.cache[key].storedAt + cfg.ttl)
  }

  /** A miss is always possible: the cache may fail to answer. */
  predicate Enabled(cfg: Config, s: State, step: Step) {
    match step
    case Send(_) => true
    case Deliver(m) => m in s.queue
    case HandleStep(m, _) => Flight(m, Received) in s.flights
    case Delete(m, _) => Flight(m, Applied) in s.flights
    case Invalidate(m, _) => Flight(m, Removed) in s.flights
    case Hit(key) => Live(cfg, s, key)
    case Miss(_) => true
    case Store(read, _) => read in s.pending
    case Expire(key) => key in s.cache && !Live(cfg, s, key)
    case Tick(_) => true
  }

  /** Only responses with a status below 400 are stored. */
  predicate Cacheable(r: Response) {
    r.ClusterList?
  }

  /** The step clears the tag `clusters`, under which every list response is stored. */
  predicate Wipes(step: Step) {
    step.Invalidate? && step.ok && !step.msg.skipInvalidation
  }

  function Apply(cfg: Config, s: State, step: Step): State {
    match step
    case Send(m) => s.(queue := s.queue + multiset{m})
    case Deliver(m) => s.(flights := s.flights + multiset{Flight(m, Received)})
    case HandleStep(m, f) =>
      var r := Handle(s.table, m, f);
      var rest := s.flights - multiset{Flight(m, Received)};
      s.(table := r.table, flights := if r.result.Ok? then rest + multiset{Flight(m, Applied)} else rest)
    case Delete(m, outcome) =>
      var rest := s.flights - multiset{Flight(m, Applied)};
      s.(queue := if outcome == NotDeleted then s.queue else s.queue - multiset{m},
         flights := if outcome == Deleted then rest + multiset{Flight(m, Removed)} else rest)
    case Invalidate(m, _) =>
      s.(flights := s.flights - multiset{Flight(m, Removed)},
         cache := if Wipes(step) then map[] else s.cache)
    case Hit(_) => s
    case Miss(key) => s.(pending := s.pending + multiset{Read(key, cfg.respond(key, s.table))})
    case Store(read, ok) =>
      s.(pending := s.pending - multiset{read},
         cache := if ok && Cacheable(read.body) then s.cache[read.key := Entry(read.body, s.clock)] else s.cache)
    case Expire(key) => s.(cache := s.cache - {key})
    case Tick(elapsed) => s.(clock := s.clock + elapsed)
  }

  /** A finite run: step i leads from state i to state i + 1. */
  datatype Run = Run(states: seq<State>, steps: seq<Step>)

  predicate StepAt(cfg: Config, run: Run, i: int) {
    && 0 <= i < |run.steps| && i + 1 < |run.states|
    && Enabled(cfg, run.states[i], run.steps[i])
    && run.states[i + 1] == Apply(cfg, run.states[i], run.steps[i])
  }

  predicate ValidRun(cfg: Config, run: Run) {
    && |run.states| == |run.steps| + 1
    && forall i :: 0 <= i < |run.steps| ==> StepAt(cfg, run, i)
  }

  /** Any queue and any table, but nothing under way and an empty cache. */
  predicate Starts(s: State) {
    s.flights == multiset{} && s.pending == multiset{} && s.cache == map[]
  }

  // ---- No lost update ----------------------------------------------------------------

  predicate FlightsCovered(s: State) {
    forall f :: f in s.flights && f.phase != Received ==> Covers(s.table, f.msg)
  }

  /** What no step does to the table: move a time back or drop a cluster. */
  lemma StepKeepsTable(cfg: Config, s: State, step: Step)
    ensures forall name :: NotBehind(s.table, Apply(cfg, s, step).table, name)
    ensures s.table.Keys <= Apply(cfg, s, step).table.Keys
  {
    if step.HandleStep? {
      HandleSafe(s.table, step.msg, step.faults);
    }
  }

  lemma StepKeepsIndex(cfg: Config, s: State, step: Step)
    requires TableWellIndexed(s.table)
    ensures TableWellIndexed(Apply(cfg, s, step).table)
  {
    if step.HandleStep? {
      HandleKeepsIndex(s.table, step.msg, step.faults);
    }
  }

  lemma StepKeepsRegistration(cfg: Config, s: State, step: Step, name: string)
    requires name in s.table
    requires step.HandleStep? ==> !step.faults.putReadFails
    ensures name in Apply(cfg, s, step).table
    ensures Apply(cfg, s, step).table[name].cluster.registeredAt == s.table[name].cluster.registeredAt
  {
  }

  lemma StepKeepsCovered(cfg: Config, s: State, step: Step, m: Message)
    requires Covers(s.table, m)
    ensures Covers(Apply(cfg, s, step).table, m)
  {
    StepKeepsTable(cfg, s, step);
    assert NotBehind(s.table, Apply(cfg, s, step).table, Name(m));
  }

  /** A flight past its update in the next state either was so before or has just been
      handled with success. */
  lemma FlightStep(cfg: Config, s: State, step: Step, f: Flight)
    requires Enabled(cfg, s, step)
    requires f in Apply(cfg, s, step).flights && f.phase != Received
    ensures (exists g :: g in s.flights && g.phase != Received && g.msg == f.msg)
         || (step.HandleStep? && step.msg == f.msg && Handle(s.table, step.msg, step.faults).result.Ok?)
  {
    if f in s.flights {
    } else if step.Delete? {
      assert Flight(f.msg, Applied) in s.flights;
    }
  }

  lemma StepKeepsFlightsCovered(cfg: Config, s: State, step: Step)
    requires Enabled(cfg, s, step) && FlightsCovered(s)
    ensures FlightsCovered(Apply(cfg, s, step))
  {
    forall f | f in Apply(cfg, s, step).flights && f.phase != Received
      ensures Covers(Apply(cfg, s, step).table, f.msg)
    {
      FlightStep(cfg, s, step, f);
      if exists g :: g in s.flights && g.phase != Received && g.msg == f.msg {
        StepKeepsCovered(cfg, s, step, f.msg);
      } else {
        HandleSafe(s.table, step.msg, step.faults);
      }
    }
  }

  lemma {:induction false} RunKeepsFlightsCovered(cfg: Config, run: Run, i: nat)
    requires ValidRun(cfg, run) && Starts(run.states[0]) && i < |run.states|
    ensures FlightsCovered(run.states[i])
  {
    if i > 0 {
      RunKeepsFlightsCovered(cfg, run, i - 1);
      assert StepAt(cfg, run, i - 1);
      StepKeepsFlightsCovered(cfg, run.states[i - 1], run.steps[i - 1]);
    }
  }

  lemma {:induction false} CoveredForever(cfg: Config, run: Run, i: nat, j: nat, m: Message)
    requires ValidRun(cfg, run) && i <= j < |run.states|
    requires Covers(run.states[i].table, m)
    ensures Covers(run.states[j].table, m)
  {
    if i < j {
      CoveredForever(cfg, run, i, j - 1, m);
      assert StepAt(cfg, run, j - 1);
      StepKeepsCovered(cfg, run.states[j - 1], run.steps[j - 1], m);
    }
  }

  /** A message leaves the queue only by a deletion, which follows its handling. */
  lemma LeavingStep(cfg: Config, s: State, step: Step, m: Message)
    requires Enabled(cfg, s, step)
    requires Apply(cfg, s, step).queue[m] < s.queue[m]
    ensures Flight(m, Applied) in s.flights
  {
  }

  /** Over every run, with any faults: when a message leaves the queue, the table
      holds its cluster at the message's time or later, then and in all later states. */
  lemma NoLostUpdate(cfg: Config, run: Run, i: nat, j: nat, m: Message)
    requires ValidRun(cfg, run) && Starts(run.states[0]) && i < j < |run.states|
    requires run.states[i + 1].queue[m] < run.states[i].queue[m]
    ensures Covers(run.states[j].table, m)
  {
    RunKeepsFlightsCovered(cfg, run, i);
    assert StepAt(cfg, run, i);
    LeavingStep(cfg, run.states[i], run.steps[i], m);
    CoveredForever(cfg, run, i, j, m);
  }

  /** No cluster's stored time ever goes back and no cluster disappears. */
  lemma {:induction false} TimesNeverGoBack(cfg: Config, run: Run, i: nat, j: nat, name: string)
    requires ValidRun(cfg, run) && i <= j < |run.states|
    ensures NotBehind(run.states[i].table, run.states[j].table, name)
    ensures name in run.states[i].table ==> name in run.states[j].table
  {
    if i < j {
      TimesNeverGoBack(cfg, run, i, j - 1, name);
      assert StepAt(cfg, run, j - 1);
      StepKeepsTable(cfg, run.states[j - 1], run.steps[j - 1]);
      assert NotBehind(run.states[j - 1].table, run.states[j].table, name);
    }
  }

  /** The preliminary reads of PutCluster between states i and j all succeed. */
  predicate PutReadsSucceed(steps: seq<Step>, i: nat, j: nat)
    requires j <= |steps|
  {
    forall k :: i <= k < j && steps[k].HandleStep? ==> !steps[k].faults.putReadFails
  }

  /** Once stored, a registration time never changes while those reads succeed. */
  lemma {:induction false} RegisteredAtNeverChanges(cfg: Config, run: Run, i: nat, j: nat, name: string)
    requires ValidRun(cfg, run) && i <= j < |run.states|
    requires PutReadsSucceed(run.steps, i, j)
    requires name in run.states[i].table
    ensures name in run.states[j].table
    ensures run.states[j].table[name].cluster.registeredAt == run.states[i].table[name].cluster.registeredAt
  {
    if i < j {
      RegisteredAtNeverChanges(cfg, run, i, j - 1, name);
      assert StepAt(cfg, run, j - 1);
      StepKeepsRegistration(cfg, run.states[j - 1], run.steps[j - 1], name);
    }
  }

  /** In every reachable state the columns agree with the specs, so every stored time
      parses: the handler's branch for an unreadable stored time is dead. */
  lemma {:induction false} RunKeepsIndex(cfg: Config, run: Run, i: nat)
    requires ValidRun(cfg, run) && i < |run.states|
    requires TableWellIndexed(run.states[0].table)
    ensures TableWellIndexed(run.states[i].table)
    ensures forall name :: name in run.states[i].table ==> StoredTime(run.states[i].table, name).Some?
  {
    if i > 0 {
      RunKeepsIndex(cfg, run, i - 1);
      assert StepAt(cfg, run, i - 1);
      StepKeepsIndex(cfg, run.states[i - 1], run.steps[i - 1]);
    }
  }

  // ---- Convergence over runs ------------------------------------------------------------

  /** The messages handled in the first n steps, in order. */
  function Handled(steps: seq<Step>): seq<Message> {
    if steps == [] then []
    else
      var last := steps[|steps| - 1];
      Handled(steps[..|steps| - 1]) + (if last.HandleStep? then [last.msg] else [])
  }

  predicate DatabaseWorks(steps: seq<Step>) {
    forall k :: 0 <= k < |steps| && steps[k].HandleStep? ==> steps[k].faults == NO_FAULTS
  }

  lemma {:induction false} TableIsDeliveries(cfg: Config, run: Run, i: nat)
    requires ValidRun(cfg, run) && i < |run.states| && DatabaseWorks(run.steps)
    ensures run.states[i].table == DeliverAll(run.states[0].table, Handled(run.steps[..i]))
  {
    if i > 0 {
      var s, step := run.states[i - 1], run.steps[i - 1];
      TableIsDeliveries(cfg, run, i - 1);
      assert StepAt(cfg, run, i - 1);
      HandledSnoc(run.steps, i);
      if step.HandleStep? {
        DeliverLast(run.states[0].table, Handled(run.steps[..i - 1]), step.msg);
      } else {
        OnlyHandlingChangesTable(cfg, s, step, run.states[i]);
      }
    }
  }

  lemma HandledSnoc(steps: seq<Step>, i: nat)
    requires 0 < i <= |steps|
    ensures
      var before := Handled(steps[..i - 1]);
      Handled(steps[..i]) == if steps[i - 1].HandleStep? then before + [steps[i - 1].msg] else before
  {
    assert steps[..i][..i - 1] == steps[..i - 1];
  }

  lemma DeliverLast(table: Table, ms: seq<Message>, m: Message)
    ensures DeliverAll(table, ms + [m]) == Handle(DeliverAll(table, ms), m, NO_FAULTS).table
  {
    assert (ms + [m])[..|ms|] == ms;
  }

  /** Two runs from one table that have handled the same updates, in whatever order,
      interleaving and multiplicity, hold the same table up to registration times. */
  lemma RunsConverge(cfg: Config, a: Run, b: Run, name: string)
    requires ValidRun(cfg, a) && ValidRun(cfg, b) && DatabaseWorks(a.steps) && DatabaseWorks(b.steps)
    requires a.states[0].table == b.states[0].table
    requires DistinctTimes(Handled(a.steps))
    requires forall m :: m in Handled(a.steps) <==> m in Handled(b.steps)
    ensures
      var t := a.states[0].table;
      var x, y := a.states[|a.steps|].table, b.states[|b.steps|].table;
      && IgnoringRegistration(Lookup(x, name)) == IgnoringRegistration(Lookup(y, name))
      && (name in t ==> Lookup(x, name) == Lookup(y, name))
      && Lookup(x, name) == Expected(t, Handled(a.steps), name)
  {
    TableIsDeliveries(cfg, a, |a.steps|);
    TableIsDeliveries(cfg, b, |b.steps|);
    assert a.steps[..|a.steps|] == a.steps && b.steps[..|b.steps|] == b.steps;
    Convergence(a.states[0].table, Handled(a.steps), Handled(b.steps), name);
    DeliveredIsExpected(a.states[0].table, Handled(a.steps), name);
  }

  // ---- Cache coherence ----------------------------------------------------------------

  /** The response waiting to be stored was computed from the table of state r. */
  predicate ReadAt(cfg: Config, run: Run, r: int, read: Read) {
    && 0 <= r < |run.steps| && r < |run.states|
    && run.steps[r] == Miss(read.key)
    && read.body == cfg.respond(read.key, run.states[r].table)
  }

  lemma PendingStep(cfg: Config, s: State, step: Step, read: Read)
    requires read in Apply(cfg, s, step).pending && read !in s.pending
    ensures step == Miss(read.key) && read.body == cfg.respond(read.key, s.table)
  {
  }

  lemma {:induction false} ReadOrigin(cfg: Config, run: Run, i: nat, read: Read)
    requires ValidRun(cfg, run) && Starts(run.states[0]) && i < |run.states|
    requires read in run.states[i].pending
    ensures exists r :: r < i && ReadAt(cfg, run, r, read)
  {
    assert StepAt(cfg, run, i - 1);
    if read in run.states[i - 1].pending {
      ReadOrigin(cfg, run, i - 1, read);
    } else {
      PendingStep(cfg, run.states[i - 1], run.steps[i - 1], read);
      assert ReadAt(cfg, run, i - 1, read);
    }
  }

  /** Where the entry under `key` in state i comes from: computed in state r, stored by
      the step into state w, and not wiped since. */
  predicate Provenance(cfg: Config, run: Run, i: int, key: Request, r: int, w: int) {
    && 0 <= r < w - 1 && w <= i < |run.states| && i <= |run.steps|
    && key in run.states[i].cache && Cacheable(run.states[i].cache[key].body)
    && ReadAt(cfg, run, r, Read(key, run.states[i].cache[key].body))
    && run.steps[w - 1] == Store(Read(key, run.states[i].cache[key].body), true)
    && run.states[i].cache[key].storedAt == run.states[w].clock
    && forall u :: w <= u < i ==> !Wipes(run.steps[u])
  }

  /** The step stores `entry` under `key`. */
  predicate StoresEntry(s: State, step: Step, key: Request, entry: Entry) {
    && step == Store(Read(key, entry.body), true) && Cacheable(entry.body)
    && step.read in s.pending
    && entry.storedAt == s.clock
  }

  lemma CacheStep(cfg: Config, s: State, step: Step, key: Request)
    requires Enabled(cfg, s, step)
    requires key in Apply(cfg, s, step).cache
    ensures var entry := Apply(cfg, s, step).cache[key];
      || (StoresEntry(s, step, key, entry) && Apply(cfg, s, step).clock == s.clock)
      || (key in s.cache && s.cache[key] == entry && !Wipes(step))
  {
  }

  lemma {:induction false} CacheProvenance(cfg: Config, run: Run, i: nat, key: Request)
    requires ValidRun(cfg, run) && Starts(run.states[0]) && i < |run.states|
    requires key in run.states[i].cache
    ensures run.states[i].cache[key].body.ClusterList?
    ensures exists r, w :: Provenance(cfg, run, i, key, r, w)
  {
    assert StepAt(cfg, run, i - 1);
    var s, step, entry := run.states[i - 1], run.steps[i - 1], run.states[i].cache[key];
    CacheStep(cfg, s, step, key);
    if StoresEntry(s, step, key, entry) {
      ReadOrigin(cfg, run, i - 1, step.read);
      var r :| r < i - 1 && ReadAt(cfg, run, r, step.read);
      assert Provenance(cfg, run, i, key, r, i);
    } else {
      CacheProvenance(cfg, run, i - 1, key);
      var r, w :| Provenance(cfg, run, i - 1, key, r, w);
      assert Provenance(cfg, run, i, key, r, w);
    }
  }

  /** Step u changed the table. */
  predicate TableChanges(run: Run, u: int) {
    0 <= u < |run.steps| && u + 1 < |run.states| && run.states[u].table != run.states[u + 1].table
  }

  lemma {:induction false} SomeStepChanged(run: Run, a: nat, b: nat)
    requires a <= b < |run.states| && b <= |run.steps|
    requires run.states[a].table != run.states[b].table
    ensures exists u :: a <= u < b && TableChanges(run, u)
    decreases b - a
  {
    if a < b {
      if TableChanges(run, a) {
      } else {
        SomeStepChanged(run, a + 1, b);
      }
    }
  }

  /** The body is what the handler computes in state w. */
  predicate RightAt(cfg: Config, run: Run, key: Request, body: Response, w: int) {
    0 <= w < |run.states| && body == cfg.respond(key, run.states[w].table)
  }

  /** An update applied by step u that no successful invalidation has followed by state i. */
  predicate NotInvalidated(run: Run, u: int, i: int) {
    && TableChanges(run, u) && u < i <= |run.steps|
    && forall v :: u < v < i ==> !Wipes(run.steps[v])
  }

  /** A callback for the message is between its update and its invalidation. */
  predicate UnderWay(s: State, m: Message) {
    Flight(m, Applied) in s.flights || Flight(m, Removed) in s.flights
  }

  /** The step ends a callback for the message without an invalidation: the deletion
      fails or is not acknowledged, the message asks to skip, or the invalidation fails. */
  predicate Forgoes(step: Step, m: Message) {
    || (step.Delete? && step.msg == m && step.outcome != Deleted)
    || (step.Invalidate? && step.msg == m && (m.skipInvalidation || !step.ok))
  }

  /** Why the update of step u has not been invalidated by state i: its write was not
      acknowledged, its callback is still under way, or a callback for its message has
      ended without an invalidation. */
  predicate Excused(run: Run, u: int, i: int) {
    && 0 <= u < i <= |run.steps| && i < |run.states|
    && run.steps[u].HandleStep?
    && var m := run.steps[u].msg;
       || run.steps[u].faults.write == Unacknowledged
       || UnderWay(run.states[i], m)
       || exists k :: u < k < i && Forgoes(run.steps[k], m)
  }

  lemma OnlyHandlingChangesTable(cfg: Config, s: State, step: Step, next: State)
    requires !step.HandleStep? && next == Apply(cfg, s, step)
    ensures next.table == s.table
  {
  }

  lemma ChangeStartsCallback(cfg: Config, s: State, m: Message, f: Faults)
    requires f.write != Unacknowledged && Handle(s.table, m, f).table != s.table
    ensures UnderWay(Apply(cfg, s, HandleStep(m, f)), m)
  {
    ChangeReportsSuccess(s.table, m, f);
  }

  /** A flight stays unless the step is its own. */
  lemma FlightStays(cfg: Config, s: State, step: Step, f: Flight, next: State)
    requires f in s.flights && next == Apply(cfg, s, step)
    requires step.HandleStep? ==> f != Flight(step.msg, Received)
    requires step.Delete? ==> f != Flight(step.msg, Applied)
    requires step.Invalidate? ==> f != Flight(step.msg, Removed)
    ensures f in next.flights
  {
    if step.HandleStep? {
      HandlingKeepsOthers(cfg, s, step.msg, step.faults, f);
    } else if step.Delete? {
      DeletingKeepsOthers(cfg, s, step.msg, step.outcome, f);
    }
  }

  lemma HandlingKeepsOthers(cfg: Config, s: State, m: Message, faults: Faults, f: Flight)
    requires f in s.flights && f != Flight(m, Received)
    ensures f in Apply(cfg, s, HandleStep(m, faults)).flights
  {
  }

  lemma DeletingKeepsOthers(cfg: Config, s: State, m: Message, outcome: DeleteOutcome, f: Flight)
    requires f in s.flights && f != Flight(m, Applied)
    ensures f in Apply(cfg, s, Delete(m, outcome)).flights
  {
  }

  lemma StepKeepsUnderWay(cfg: Config, s: State, step: Step, m: Message, next: State)
    requires UnderWay(s, m) && !Forgoes(step, m) && !Wipes(step) && next == Apply(cfg, s, step)
    ensures UnderWay(next, m)
  {
    if step.Delete? && step.msg == m {
      assert Flight(m, Removed) in next.flights;
    } else if Flight(m, Applied) in s.flights {
      FlightStays(cfg, s, step, Flight(m, Applied), next);
    } else {
      FlightStays(cfg, s, step, Flight(m, Removed), next);
    }
  }

  /** Every update that has not been invalidated has its reason, in its own message. */
  lemma {:induction false} MissingInvalidation(cfg: Config, run: Run, u: nat, i: nat)
    requires ValidRun(cfg, run) && i < |run.states| && NotInvalidated(run, u, i)
    ensures Excused(run, u, i)
    decreases i
  {
    assert StepAt(cfg, run, u) && StepAt(cfg, run, i - 1);
    var s, step := run.states[u], run.steps[u];
    if !step.HandleStep? {
      OnlyHandlingChangesTable(cfg, s, step, run.states[u + 1]);
    } else if i == u + 1 {
      if step.faults.write != Unacknowledged {
        ChangeStartsCallback(cfg, s, step.msg, step.faults);
      }
    } else {
      MissingInvalidation(cfg, run, u, i - 1);
      if UnderWay(run.states[i - 1], step.msg) && !Forgoes(run.steps[i - 1], step.msg) {
        StepKeepsUnderWay(cfg, run.states[i - 1], run.steps[i - 1], step.msg, run.states[i]);
      }
    }
  }

  /** A response is right when it is stored if no update fell between its computation
      and its storing, whatever else did. */
  lemma UndisturbedGet(cfg: Config, run: Run, i: nat, key: Request, r: int, w: int)
    requires Provenance(cfg, run, i, key, r, w)
    requires forall u :: r <= u < w ==> !TableChanges(run, u)
    ensures RightAt(cfg, run, key, run.states[i].cache[key].body, w)
  {
    if run.states[r].table != run.states[w].table {
      SomeStepChanged(run, r, w);
    }
  }

  /** Cache coherence: in every reachable state a cached response is what the handler
      would compute from the current table, unless an update overtook its GET, so that it
      was wrong when it was stored, or some update applied since has not invalidated the
      tag, for one of the reasons above. */
  lemma CacheCoherence(cfg: Config, run: Run, i: nat, key: Request, r: int, w: int)
    requires ValidRun(cfg, run) && Provenance(cfg, run, i, key, r, w)
    ensures
      var body := run.states[i].cache[key].body;
      || RightAt(cfg, run, key, body, i)
      || (!RightAt(cfg, run, key, body, w) && exists u :: r <= u < w && TableChanges(run, u))
      || exists u :: w <= u && NotInvalidated(run, u, i) && Excused(run, u, i)
  {
    var body := run.states[i].cache[key].body;
    if !RightAt(cfg, run, key, body, w) {
      if forall u :: r <= u < w ==> !TableChanges(run, u) {
        UndisturbedGet(cfg, run, i, key, r, w);
      }
    } else if !RightAt(cfg, run, key, body, i) {
      SomeStepChanged(run, w, i);
      var u :| w <= u < i && TableChanges(run, u);
      assert NotInvalidated(run, u, i);
      MissingInvalidation(cfg, run, u, i);
    }
  }

  /** The write is acknowledged, the deletion or the invalidation succeeds, and nothing
      asks to skip. */
  predicate FaultlessStep(step: Step) {
    && (step.HandleStep? ==> step.faults.write != Unacknowledged)
    && (step.Delete? ==> step.outcome == Deleted)
    && (step.Invalidate? ==> step.ok && !step.msg.skipInvalidation)
  }

  predicate FaultlessBetween(steps: seq<Step>, a: int, b: int)
    requires 0 <= a && b <= |steps|
  {
    forall k :: a <= k < b ==> FaultlessStep(steps[k])
  }

  /** No callback is between its update and its invalidation. */
  predicate Quiescent(s: State) {
    forall f :: f in s.flights ==> f.phase == Received
  }

  /** Without faults since an update, its invalidation is missing only while its own
      callback is under way. */
  lemma UnfinishedFlight(cfg: Config, run: Run, u: nat, i: nat)
    requires ValidRun(cfg, run) && i < |run.states|
    requires NotInvalidated(run, u, i) && FaultlessBetween(run.steps, u, i)
    ensures run.steps[u].HandleStep? && UnderWay(run.states[i], run.steps[u].msg)
    ensures !Quiescent(run.states[i])
  {
    MissingInvalidation(cfg, run, u, i);
    assert FaultlessStep(run.steps[u]);
    var m := run.steps[u].msg;
    assert Flight(m, Applied) in run.states[i].flights || Flight(m, Removed) in run.states[i].flights;
  }

  /** With no fault since the entry was stored, and no callback between its update and
      its invalidation, a cached response is what the current table gives if and only if
      it was right when it was stored. */
  lemma QuiescentCacheIsFresh(cfg: Config, run: Run, i: nat, key: Request, r: int, w: int)
    requires ValidRun(cfg, run) && Provenance(cfg, run, i, key, r, w)
    requires FaultlessBetween(run.steps, w, i) && Quiescent(run.states[i])
    ensures run.states[i].table == run.states[w].table
    ensures RightAt(cfg, run, key, run.states[i].cache[key].body, i)
       <==> RightAt(cfg, run, key, run.states[i].cache[key].body, w)
  {
    if run.states[i].table != run.states[w].table {
      SomeStepChanged(run, w, i);
      var u :| w <= u < i && TableChanges(run, u);
      assert NotInvalidated(run, u, i);
      UnfinishedFlight(cfg, run, u, i);
    }
  }

  // ---- Age ------------------------------------------------------------------------------

  lemma {:induction false} ClockAdvances(cfg: Config, run: Run, a: nat, b: nat)
    requires ValidRun(cfg, run) && a <= b < |run.states|
    ensures run.states[a].clock <= run.states[b].clock
  {
    if a < b {
      ClockAdvances(cfg, run, a, b - 1);
      assert StepAt(cfg, run, b - 1);
    }
  }

  /** Every answer served from the cache was right when it was computed, and was stored
      less than one time to live before it was served, whatever happened in between. */
  lemma ServedAnswerOrigin(cfg: Config, run: Run, i: nat, key: Request)
    requires ValidRun(cfg, run) && Starts(run.states[0]) && i < |run.steps|
    requires cfg.ttl > 0 && run.steps[i] == Hit(key)
    ensures key in run.states[i].cache
    ensures exists r, w :: Provenance(cfg, run, i, key, r, w)
              && RightAt(cfg, run, key, run.states[i].cache[key].body, r)
              && run.states[r].clock <= run.states[w].clock <= run.states[i].clock < run.states[w].clock + cfg.ttl
  {
    assert StepAt(cfg, run, i);
    CacheProvenance(cfg, run, i, key);
    var r, w :| Provenance(cfg, run, i, key, r, w);
    ClockAdvances(cfg, run, r, w);
    ClockAdvances(cfg, run, w, i);
  }

  /** The answer served in state i was right less than one time to live before. */
  predicate RightRecently(cfg: Config, run: Run, i: int, key: Request)
    requires 0 <= i < |run.states| && key in run.states[i].cache
  {
    exists j :: 0 <= j <= i && RightAt(cfg, run, key, run.states[i].cache[key].body, j)
                && run.states[i].clock < run.states[j].clock + cfg.ttl
  }

  /** The last state up to i in which the body was right, or -1. */
  function LastRight(cfg: Config, run: Run, key: Request, body: Response, i: int): (j: int)
    requires -1 <= i < |run.states|
    ensures -1 <= j <= i
    ensures j >= 0 ==> RightAt(cfg, run, key, body, j)
    ensures forall k :: j < k <= i ==> !RightAt(cfg, run, key, body, k)
    decreases i + 1
  {
    if i < 0 || RightAt(cfg, run, key, body, i) then i else LastRight(cfg, run, key, body, i - 1)
  }

  /** The answer served in state i was right less than one time to live before if and only
      if the last state in which it was right is that recent. There is such a state, from
      its computation on; and it is that recent if the answer was right when it was
      stored, or is served less than one time to live after it was computed. */
  lemma ServedAnswerAge(cfg: Config, run: Run, i: nat, key: Request, r: int, w: int)
    requires ValidRun(cfg, run) && i < |run.steps| && cfg.ttl > 0 && run.steps[i] == Hit(key)
    requires Provenance(cfg, run, i, key, r, w)
    ensures
      var body := run.states[i].cache[key].body;
      var last := LastRight(cfg, run, key, body, i);
      && r <= last
      && (RightRecently(cfg, run, i, key) <==> run.states[i].clock < run.states[last].clock + cfg.ttl)
      && (RightAt(cfg, run, key, body, w) || run.states[i].clock < run.states[r].clock + cfg.ttl ==>
            RightRecently(cfg, run, i, key))
  {
    assert StepAt(cfg, run, i);
    var body := run.states[i].cache[key].body;
    assert RightAt(cfg, run, key, body, r);
    var last := LastRight(cfg, run, key, body, i);
    if j :| 0 <= j <= i && RightAt(cfg, run, key, body, j) && run.states[i].clock < run.states[j].clock + cfg.ttl {
      ClockAdvances(cfg, run, j, last);
    }
  }

  // ---- Runs whose GETs do not overlap anything ----------------------------------------------

  /** Every GET that misses stores its response (or fails to) in the very next step. */
  predicate GetsAtomic(run: Run) {
    forall k :: 0 <= k < |run.steps| - 1 && run.steps[k].Miss? ==>
      run.steps[k + 1].Store? && run.steps[k + 1].read.key == run.steps[k].key
  }

  lemma {:induction false} AtomicPending(cfg: Config, run: Run, i: nat)
    requires ValidRun(cfg, run) && Starts(run.states[0]) && i < |run.states|
    requires GetsAtomic(run)
    ensures run.states[i].pending ==
      if i > 0 && run.steps[i - 1].Miss?
      then multiset{Read(run.steps[i - 1].key, cfg.respond(run.steps[i - 1].key, run.states[i - 1].table))}
      else multiset{}
  {
    if i > 0 {
      AtomicPending(cfg, run, i - 1);
      assert StepAt(cfg, run, i - 1);
    }
  }

  /** In such runs every entry was right when it was stored, so the coherence results
      hold of all of them. */
  lemma AtomicGetsAreRight(cfg: Config, run: Run, i: nat, key: Request, r: int, w: int)
    requires ValidRun(cfg, run) && Starts(run.states[0]) && GetsAtomic(run)
    requires Provenance(cfg, run, i, key, r, w)
    ensures RightAt(cfg, run, key, run.states[i].cache[key].body, w)
  {
    AtomicPending(cfg, run, w - 1);
    assert StepAt(cfg, run, w - 1) && StepAt(cfg, run, w - 2);
    assert run.steps[w - 2] == Miss(key);
    OnlyHandlingChangesTable(cfg, run.states[w - 2], run.steps[w - 2], run.states[w - 1]);
    OnlyHandlingChangesTable(cfg, run.states[w - 1], run.steps[w - 1], run.states[w]);
  }

  // ---- The list endpoint --------------------------------------------------------------------

  /** The v2 list endpoint as the protocol's handler; `scan` is the order in which the
      database returns a table's records. */
  function ListConfig(schema: Schema, scan: Table -> seq<Record>, ttl: nat): Config {
    Config((req, table) => Answer(schema, req, scan(table)), ttl)
  }

  /** End to end, with no fault since the entry was stored and between callbacks: what
      the cache holds for a request is the answer that the request is served from the
      current table if and only if it was right when it was stored; that answer is cut
      from exactly the records of the table, whose columns agree with their specs; and it
      is the answer to the request as typed if and only if the canonical form keeps the
      numbers of the request. */
  lemma CachedListIsExact(schema: Schema, scan: Table -> seq<Record>, ttl: nat, run: Run, i: nat, req: Request,
                          r: int, w: int)
    requires ValidRun(ListConfig(schema, scan, ttl), run)
    requires Provenance(ListConfig(schema, scan, ttl), run, i, CacheKey(req), r, w)
    requires FaultlessBetween(run.steps, w, i) && Quiescent(run.states[i])
    requires TableWellIndexed(run.states[0].table) && Lists(scan(run.states[i].table), run.states[i].table)
    ensures
      var body, recs := run.states[i].cache[CacheKey(req)].body, scan(run.states[i].table);
      && (body == Served(schema, req, recs) <==> RightAt(ListConfig(schema, scan, ttl), run, CacheKey(req), body, w))
      && (body == Served(schema, req, recs) ==> (body == Answer(schema, req, recs) <==> SameNumbers(req)))
      && forall rec :: rec in recs ==> WellIndexed(rec)
  {
    var cfg := ListConfig(schema, scan, ttl);
    var recs := scan(run.states[i].table);
    QuiescentCacheIsFresh(cfg, run, i, CacheKey(req), r, w);
    CanonicalAnswer(schema, req, recs);
    RunKeepsIndex(cfg, run, i);
    ListedAreIndexed(recs, run.states[i].table);
  }

  // ---- A GET that is overtaken by an update ---------------------------------------------------

  /** The run in which a GET computes its answer, an update is applied and the cache
      invalidated, a time to live goes by, and only then the GET stores its answer, which
      is served at once. */
  function SlowGet(cfg: Config, m: Message, key: Request, after: Table): Run {
    var q, none, empty := multiset{m}, multiset{}, map[];
    var read := Read(key, cfg.respond(key, map[]));
    var stored := State(multiset{}, none, after, map[key := Entry(read.body, cfg.ttl)], multiset{}, cfg.ttl);
    Run([State(q, none, map[], empty, multiset{}, 0),
         State(q, multiset{Flight(m, Received)}, map[], empty, multiset{}, 0),
         State(q, multiset{Flight(m, Received)}, map[], empty, multiset{read}, 0),
         State(q, multiset{Flight(m, Applied)}, after, empty, multiset{read}, 0),
         State(multiset{}, multiset{Flight(m, Removed)}, after, empty, multiset{read}, 0),
         State(multiset{}, none, after, empty, multiset{read}, 0),
         State(multiset{}, none, after, empty, multiset{read}, cfg.ttl),
         stored,
         stored],
        [Deliver(m), Miss(key), HandleStep(m, NO_FAULTS), Delete(m, Deleted), Invalidate(m, true),
         Tick(cfg.ttl), Store(read, true), Hit(key)])
  }

  lemma SlowGetStarts(cfg: Config, m: Message, key: Request, after: Table)
    ensures StepAt(cfg, SlowGet(cfg, m, key, after), 0)
    ensures StepAt(cfg, SlowGet(cfg, m, key, after), 1)
  {
  }

  lemma SlowGetOvertaken(cfg: Config, m: Message, key: Request)
    requires IsUpdate(m)
    ensures StepAt(cfg, SlowGet(cfg, m, key, Handle(map[], m, NO_FAULTS).table), 2)
  {
    var run := SlowGet(cfg, m, key, Handle(map[], m, NO_FAULTS).table);
    var s := run.states[2];
    assert Handle(map[], m, NO_FAULTS).result.Ok?;
    assert s.flights - multiset{Flight(m, Received)} + multiset{Flight(m, Applied)} == run.states[3].flights;
    assert Apply(cfg, s, HandleStep(m, NO_FAULTS)) == run.states[3];
  }

  lemma SlowGetDeletes(cfg: Config, m: Message, key: Request, after: Table)
    ensures StepAt(cfg, SlowGet(cfg, m, key, after), 3)
  {
    var flights := multiset{Flight(m, Applied)};
    assert flights - multiset{Flight(m, Applied)} + multiset{Flight(m, Removed)} == multiset{Flight(m, Removed)};
  }

  lemma SlowGetWaits(cfg: Config, m: Message, key: Request, after: Table)
    requires !m.skipInvalidation
    ensures StepAt(cfg, SlowGet(cfg, m, key, after), 4)
    ensures StepAt(cfg, SlowGet(cfg, m, key, after), 5)
  {
  }

  lemma SlowGetEnds(cfg: Config, m: Message, key: Request, after: Table)
    requires Cacheable(cfg.respond(key, map[]))
    ensures StepAt(cfg, SlowGet(cfg, m, key, after), 6)
    ensures StepAt(cfg, SlowGet(cfg, m, key, after), 7)
  {
  }

  lemma SlowGetIsValid(cfg: Config, m: Message, key: Request)
    requires IsUpdate(m) && !m.skipInvalidation
    requires Cacheable(cfg.respond(key, map[]))
    ensures ValidRun(cfg, SlowGet(cfg, m, key, Handle(map[], m, NO_FAULTS).table))
  {
    var after := Handle(map[], m, NO_FAULTS).table;
    SlowGetStarts(cfg, m, key, after);
    SlowGetOvertaken(cfg, m, key);
    SlowGetDeletes(cfg, m, key, after);
    SlowGetWaits(cfg, m, key, after);
    SlowGetEnds(cfg, m, key, after);
    var run := SlowGet(cfg, m, key, after);
    forall i | 0 <= i < |run.steps| ensures StepAt(cfg, run, i) {
      assert i == 0 || i == 1 || i == 2 || i == 3 || i == 4 || i == 5 || i == 6 || i == 7;
    }
  }

  /** A GET whose computation and storing are apart can leave a wrong answer behind, and
      serve one that was last right a time to live ago: the update and its invalidation
      both fall between the two, without any fault. */
  lemma SlowGetStoresStaleAnswer(cfg: Config, m: Message, key: Request)
    requires IsUpdate(m) && !m.skipInvalidation
    requires Cacheable(cfg.respond(key, map[]))
    requires cfg.respond(key, map[]) != cfg.respond(key, Handle(map[], m, NO_FAULTS).table)
    ensures var run := SlowGet(cfg, m, key, Handle(map[], m, NO_FAULTS).table);
      && ValidRun(cfg, run) && Starts(run.states[0]) && FaultlessBetween(run.steps, 0, |run.steps|)
      && Quiescent(run.states[7])
      && run.steps[7] == Hit(key) && key in run.states[7].cache
      && !RightAt(cfg, run, key, run.states[7].cache[key].body, 7)
      && !RightRecently(cfg, run, 7, key)
  {
    SlowGetIsValid(cfg, m, key);
  }

  // ---- The imperative server -------------------------------------------------------------

  function Exec(cfg: Config, s: State, steps: seq<Step>): State
    decreases |steps|
  {
    if steps == [] then s else Exec(cfg, Apply(cfg, s, steps[0]), steps[1..])
  }

  /** Each step is enabled in the state that the steps before it lead to. */
  predicate AllEnabled(cfg: Config, s: State, steps: seq<Step>)
    decreases |steps|
  {
    steps == [] || (Enabled(cfg, s, steps[0]) && AllEnabled(cfg, Apply(cfg, s, steps[0]), steps[1..]))
  }

  /** The steps of one undisturbed callback, with its early returns. */
  function CallbackSteps(s: State, m: Message, f: Faults, outcome: DeleteOutcome, ok: bool): seq<Step> {
    var handled := [Deliver(m)] + [HandleStep(m, f)];
    if Handle(s.table, m, f).result.Err? then handled
    else if outcome != Deleted then handled + [Delete(m, outcome)]
    else handled + [Delete(m, outcome)] + [Invalidate(m, ok)]
  }

  lemma {:induction false} ExecSnoc(cfg: Config, s: State, steps: seq<Step>, last: Step)
    ensures Exec(cfg, s, steps + [last]) == Apply(cfg, Exec(cfg, s, steps), last)
    ensures AllEnabled(cfg, s, steps + [last])
       <==> AllEnabled(cfg, s, steps) && Enabled(cfg, Exec(cfg, s, steps), last)
    decreases |steps|
  {
    if steps == [] {
      assert steps + [last] == [last] && [last][1..] == [];
    } else {
      assert (steps + [last])[1..] == steps[1..] + [last];
      ExecSnoc(cfg, Apply(cfg, s, steps[0]), steps[1..], last);
    }
  }

  /** What one undisturbed callback leaves. */
  function AfterCallback(s: State, m: Message, f: Faults, outcome: DeleteOutcome, ok: bool): State {
    var r := Handle(s.table, m, f);
    if r.result.Err? then s.(table := r.table)
    else s.(table := r.table,
            queue := if outcome == NotDeleted then s.queue else s.queue - multiset{m},
            cache := if outcome == Deleted && Wipes(Invalidate(m, ok)) then map[] else s.cache)
  }

  /** The callback's effect is that of the protocol's steps, each of them enabled. */
  lemma CallbackIsSteps(cfg: Config, s: State, m: Message, f: Faults, outcome: DeleteOutcome, ok: bool)
    requires s.flights == multiset{} && m in s.queue
    ensures AllEnabled(cfg, s, CallbackSteps(s, m, f, outcome, ok))
    ensures Exec(cfg, s, CallbackSteps(s, m, f, outcome, ok)) == AfterCallback(s, m, f, outcome, ok)
  {
    var handled := [Deliver(m)] + [HandleStep(m, f)];
    CallbackHandles(cfg, s, m, f);
    ExecSnoc(cfg, s, handled, Delete(m, outcome));
    ExecSnoc(cfg, s, handled + [Delete(m, outcome)], Invalidate(m, ok));
    if Handle(s.table, m, f).result.Ok? {
      CallbackEnds(cfg, s, Exec(cfg, s, handled), m, outcome, ok);
    }
  }

  lemma CallbackHandles(cfg: Config, s: State, m: Message, f: Faults)
    requires s.flights == multiset{} && m in s.queue
    ensures AllEnabled(cfg, s, [Deliver(m)] + [HandleStep(m, f)])
    ensures var t := Handle(s.table, m, f);
      Exec(cfg, s, [Deliver(m)] + [HandleStep(m, f)])
        == s.(table := t.table, flights := if t.result.Ok? then multiset{Flight(m, Applied)} else multiset{})
  {
    ExecSnoc(cfg, s, [], Deliver(m));
    assert [] + [Deliver(m)] == [Deliver(m)];
    ExecSnoc(cfg, s, [Deliver(m)], HandleStep(m, f));
    var s1 := Apply(cfg, s, Deliver(m));
    assert s1 == s.(flights := multiset{Flight(m, Received)});
    assert s1.flights - multiset{Flight(m, Received)} == multiset{};
  }

  lemma CallbackEnds(cfg: Config, s: State, s2: State, m: Message, outcome: DeleteOutcome, ok: bool)
    requires s.flights == multiset{}
    requires s2 == s.(table := s2.table, flights := multiset{Flight(m, Applied)})
    ensures Enabled(cfg, s2, Delete(m, outcome))
    ensures outcome == Deleted ==> Enabled(cfg, Apply(cfg, s2, Delete(m, outcome)), Invalidate(m, ok))
    ensures var s3 := Apply(cfg, s2, Delete(m, outcome));
      var last := if outcome == Deleted then Apply(cfg, s3, Invalidate(m, ok)) else s3;
      last == s.(table := s2.table,
                 queue := if outcome == NotDeleted then s.queue else s.queue - multiset{m},
                 cache := if outcome == Deleted && Wipes(Invalidate(m, ok)) then map[] else s.cache)
  {
    var s3 := Apply(cfg, s2, Delete(m, outcome));
    assert s3.flights == if outcome == Deleted then multiset{Flight(m, Removed)} else multiset{};
  }

  /** What one undisturbed callback does, step by step: it takes one copy of its message off
      the queue exactly when the handling succeeds and the deletion goes through, and it
      clears the cache exactly when, besides, the deletion is acknowledged, the message
      does not ask to skip and the invalidation succeeds. */
  lemma CallbackDoes(cfg: Config, s: State, m: Message, f: Faults, outcome: DeleteOutcome, ok: bool)
    requires s.flights == multiset{} && m in s.queue
    ensures
      var after := Exec(cfg, s, CallbackSteps(s, m, f, outcome, ok));
      var handled := IsUpdate(m) && !f.getFails && (IsStale(s.table, m) || f.write == Written);
      && after.queue == (if handled && outcome != NotDeleted then s.queue - multiset{m} else s.queue)
      && after.cache == (if handled && outcome == Deleted && !m.skipInvalidation && ok then map[] else s.cache)
      && after.flights == multiset{} && after.pending == s.pending && after.clock == s.clock
  {
    CallbackIsSteps(cfg, s, m, f, outcome, ok);
    HandleReports(s.table, m, f);
  }

  /** So without faults a callback takes exactly one copy of every well-formed update off
      the queue, stale or not, and leaves every other message. */
  lemma CallbackConsumesUpdates(cfg: Config, s: State, m: Message, ok: bool)
    requires s.flights == multiset{} && m in s.queue
    ensures
      var after := Exec(cfg, s, CallbackSteps(s, m, NO_FAULTS, Deleted, ok));
      && after.queue[m] == s.queue[m] - (if IsUpdate(m) then 1 else 0)
      && forall other :: other != m ==> after.queue[other] == s.queue[other]
  {
    CallbackDoes(cfg, s, m, NO_FAULTS, Deleted, ok);
  }

  lemma MissThenStore(cfg: Config, s: State, key: Request, ok: bool)
    requires s.pending == multiset{}
    ensures
      var body := cfg.respond(key, s.table);
      Apply(cfg, Apply(cfg, s, Miss(key)), Store(Read(key, body), ok))
        == s.(cache := if ok && Cacheable(body) then s.cache[key := Entry(body, s.clock)] else s.cache)
  {
    var read := Read(key, cfg.respond(key, s.table));
    assert multiset{} + multiset{read} - multiset{read} == multiset{};
  }

  class ApiServer {
    const schema: Schema
    const ttl: nat
    ghost const scan: Table -> seq<Record>
    const db: Database
    const handler: ClusterUpdateHandler
    var queue: multiset<Message>
    var cache: map<Request, Entry>
    var clock: nat

    constructor (schema: Schema, ttl: nat, ghost scan: Table -> seq<Record>, db: Database, queue: multiset<Message>)
      ensures this.schema == schema && this.ttl == ttl && this.scan == scan
      ensures this.db == db && handler.db == db
      ensures this.queue == queue && this.cache == map[] && this.clock == 0
    {
      this.schema, this.ttl, this.scan, this.db := schema, ttl, scan, db;
      this.queue, this.cache, this.clock := queue, map[], 0;
      this.handler := new ClusterUpdateHandler(db);
    }

    ghost function Cfg(): Config {
      ListConfig(schema, scan, ttl)
    }

    ghost function Snapshot(): State
      reads this, db
    {
      State(queue, multiset{}, db.table, cache, multiset{}, clock)
    }

    /** The queue callback: handle, delete, invalidate, in this order, with early returns. */
    method OnMessage(msg: Message, f: Faults, outcome: DeleteOutcome, invalidated: bool)
      requires handler.db == db
      modifies this, db
      ensures Snapshot() == AfterCallback(old(Snapshot()), msg, f, outcome, invalidated)
    {
      if msg.kind != Some(CLUSTER_UPDATE) {
        return;
      }
      var r := handler.HandleEvent(msg, f);
      if r.Err? {
        return;
      }
      if outcome != NotDeleted {
        queue := queue - multiset{msg};
      }
      if outcome != Deleted {
        return;
      }
      if msg.skipInvalidation {
        return;
      }
      if invalidated {
        cache := map[];
      }
    }

    /** The caching middleware around the list handler. The URL is put into canonical
        form; the answer is the cached one or the handler's, computed page by page from
        the records of the table, and then stored. A failed query is answered, and
        stored, as an empty list. */
    method ServeList(url: RequestUrl, server: Server, readFails: bool, writeFails: bool) returns (body: Response)
      requires server.pages != [] && Flatten(server.pages) == scan(db.table)
      requires Lists(scan(db.table), db.table) && TableWellIndexed(db.table)
      modifies this, url
      ensures queue == old(queue) && clock == old(clock)
      ensures Request(url.rawQuery) == CacheKey(Request(old(url.rawQuery)))
      ensures
        var key := CacheKey(Request(old(url.rawQuery)));
        if !readFails && Live(Cfg(), old(Snapshot()), key) then
          body == old(cache)[key].body && cache == old(cache)
        else if Fails(server) then
          && body == FailedAnswer(key)
          && cache == if !writeFails && Cacheable(body) then old(cache)[key := Entry(body, clock)] else old(cache)
        else
          && body == Cfg().respond(key, db.table)
          && Snapshot() == Apply(Cfg(), Apply(Cfg(), old(Snapshot()), Miss(key)), Store(Read(key, body), !writeFails))
    {
      url.SortURLParams();
      var key := Request(url.rawQuery);
      if !readFails && key in cache && (ttl == 0 || clock < cache[key].storedAt + ttl) {
        return cache[key].body;
      }
      ListedAreIndexed(Flatten(server.pages), db.table);
      MissThenStore(Cfg(), Snapshot(), key, !writeFails);
      body := ListClustersHandler(schema, server, key);
      if !writeFails && Cacheable(body) {
        cache := cache[key := Entry(body, clock)];
      }
    }
  }
}
