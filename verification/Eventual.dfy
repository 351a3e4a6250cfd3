/** What the update protocol promises once a message has left the queue, over every run
    and with any faults: the table holds the newest update, not just a recent one
    (cmd/apiserver/apiserver.go, pkg/apiserver/event/handler.go). */
module Eventual {
  import opened Common
  import opened Registry
  import opened UpdateHandler
  import opened Protocol

  /** The message was in the queue at the start or has been sent before state i. */
  predicate Known(run: Run, i: int, m: Message)
    requires 0 <= i <= |run.steps| && run.states != []
  {
    m in run.states[0].queue || exists k :: 0 <= k < i && run.steps[k] == Send(m)
  }

  /** The record is what the message stores, up to the registration time. */
  predicate Stores(m: Message, r: Record) {
    && IsUpdate(m)
    && r == IndexedRecord(Stamped(m).(registeredAt := r.cluster.registeredAt), Time(m))
  }

  /** The table holds the message's own update, or a strictly later one. */
  predicate Reflects(table: Table, m: Message) {
    && IsUpdate(m)
    && Name(m) in table
    && (Stores(m, table[Name(m)]) || (Covers(table, m) && StoredTime(table, Name(m)) != Some(Time(m))))
  }

  /** No other update of the same cluster carries the message's time. */
  predicate NoTie(m: Message, k: Message) {
    IsUpdate(k) && IsUpdate(m) && Name(k) == Name(m) && Time(k) == Time(m) ==> k == m
  }

  // ---- One step ---------------------------------------------------------------------

  lemma HandledReflects(table: Table, m: Message, f: Faults)
    requires Handle(table, m, f).result.Ok?
    ensures Reflects(Handle(table, m, f).table, m)
  {
  }

  lemma HandleKeepsReflected(table: Table, k: Message, f: Faults, m: Message)
    requires Reflects(table, m) && NoTie(m, k)
    ensures Reflects(Handle(table, k, f).table, m)
  {
  }

  lemma StepKeepsReflected(cfg: Config, s: State, step: Step, m: Message)
    requires Reflects(s.table, m) && (step.HandleStep? ==> NoTie(m, step.msg))
    ensures Reflects(Apply(cfg, s, step).table, m)
  {
    if step.HandleStep? {
      HandleKeepsReflected(s.table, step.msg, step.faults, m);
    } else {
      OnlyHandlingChangesTable(cfg, s, step, Apply(cfg, s, step));
    }
  }

  /** A call writes its own message's record, or leaves the cluster alone. */
  lemma HandleWrites(table: Table, m: Message, f: Faults, name: string)
    requires name in Handle(table, m, f).table
    ensures
      var r := Handle(table, m, f).table[name];
      (name in table && r == table[name]) || (Stores(m, r) && Name(m) == name)
  {
  }

  // ---- Where messages and records come from ----------------------------------------------

  /** Every message in the queue or in a callback is known. */
  ghost predicate AllKnown(run: Run, i: int)
    requires 0 <= i <= |run.steps| && |run.states| == |run.steps| + 1
  {
    && (forall m :: m in run.states[i].queue ==> Known(run, i, m))
    && (forall f :: f in run.states[i].flights ==> Known(run, i, f.msg))
  }

  lemma QueueStep(cfg: Config, s: State, step: Step, m: Message)
    requires m in Apply(cfg, s, step).queue
    ensures m in s.queue || step == Send(m)
  {
  }

  lemma FlightOrigin(cfg: Config, s: State, step: Step, f: Flight)
    requires Enabled(cfg, s, step) && f in Apply(cfg, s, step).flights
    ensures f.msg in s.queue || exists g :: g in s.flights && g.msg == f.msg
  {
    if f !in s.flights {
      match step
      case Deliver(m) =>
      case HandleStep(m, _) => assert Flight(m, Received) in s.flights;
      case Delete(m, _) => assert Flight(m, Applied) in s.flights;
      case _ =>
    }
  }

  lemma {:induction false} RunKnowsMessages(cfg: Config, run: Run, i: nat)
    requires ValidRun(cfg, run) && Starts(run.states[0]) && i < |run.states|
    ensures AllKnown(run, i)
  {
    if i > 0 {
      RunKnowsMessages(cfg, run, i - 1);
      assert StepAt(cfg, run, i - 1);
      var s, step := run.states[i - 1], run.steps[i - 1];
      forall m | m in run.states[i].queue ensures Known(run, i, m) {
        QueueStep(cfg, s, step, m);
      }
      forall f | f in run.states[i].flights ensures Known(run, i, f.msg) {
        FlightOrigin(cfg, s, step, f);
      }
    }
  }

  /** The message a step handles is known. */
  lemma HandledIsKnown(cfg: Config, run: Run, i: nat)
    requires ValidRun(cfg, run) && Starts(run.states[0]) && i < |run.steps| && run.steps[i].HandleStep?
    ensures Known(run, i, run.steps[i].msg)
  {
    RunKnowsMessages(cfg, run, i);
    assert StepAt(cfg, run, i);
    assert Flight(run.steps[i].msg, Received) in run.states[i].flights;
  }

  lemma KnownLater(run: Run, i: int, j: int, m: Message)
    requires 0 <= i <= j <= |run.steps| && run.states != [] && Known(run, i, m)
    ensures Known(run, j, m)
  {
  }

  /** Every record of every reachable state is the initial one or was stored from a
      known message. */
  lemma {:induction false} RecordOrigin(cfg: Config, run: Run, i: nat, name: string)
    requires ValidRun(cfg, run) && Starts(run.states[0]) && i < |run.states|
    requires name in run.states[i].table
    ensures
      var r := run.states[i].table[name];
      || (name in run.states[0].table && r == run.states[0].table[name])
      || exists m :: Known(run, i, m) && Stores(m, r) && Name(m) == name
  {
    if i > 0 {
      assert StepAt(cfg, run, i - 1);
      var s, step := run.states[i - 1], run.steps[i - 1];
      var r := run.states[i].table[name];
      if step.HandleStep? {
        HandleWrites(s.table, step.msg, step.faults, name);
        HandledIsKnown(cfg, run, i - 1);
        KnownLater(run, i - 1, i, step.msg);
      } else {
        OnlyHandlingChangesTable(cfg, s, step, run.states[i]);
      }
      if name in s.table && r == s.table[name] {
        RecordOrigin(cfg, run, i - 1, name);
        if m :| Known(run, i - 1, m) && Stores(m, r) && Name(m) == name {
          KnownLater(run, i - 1, i, m);
        }
      }
    }
  }

  // ---- From handling to the end of the run ---------------------------------------------------

  /** No message of the run ties with m. */
  ghost predicate Unrivalled(run: Run, m: Message)
    requires run.states != []
  {
    forall k :: Known(run, |run.steps|, k) ==> NoTie(m, k)
  }

  lemma {:induction false} ReflectedForever(cfg: Config, run: Run, i: nat, j: nat, m: Message)
    requires ValidRun(cfg, run) && Starts(run.states[0]) && i <= j < |run.states|
    requires Unrivalled(run, m) && Reflects(run.states[i].table, m)
    ensures Reflects(run.states[j].table, m)
  {
    if i < j {
      ReflectedForever(cfg, run, i, j - 1, m);
      assert StepAt(cfg, run, j - 1);
      if run.steps[j - 1].HandleStep? {
        HandledIsKnown(cfg, run, j - 1);
        KnownLater(run, j - 1, |run.steps|, run.steps[j - 1].msg);
      }
      StepKeepsReflected(cfg, run.states[j - 1], run.steps[j - 1], m);
    }
  }

  /** A callback past its handling has had its message reflected. */
  lemma {:induction false} FlightReflected(cfg: Config, run: Run, i: nat, f: Flight)
    requires ValidRun(cfg, run) && Starts(run.states[0]) && i < |run.states|
    requires f in run.states[i].flights && f.phase != Received && Unrivalled(run, f.msg)
    ensures Reflects(run.states[i].table, f.msg)
  {
    assert StepAt(cfg, run, i - 1);
    var s, step := run.states[i - 1], run.steps[i - 1];
    FlightStep(cfg, s, step, f);
    if g :| g in s.flights && g.phase != Received && g.msg == f.msg {
      FlightReflected(cfg, run, i - 1, g);
      ReflectedForever(cfg, run, i - 1, i, f.msg);
    } else {
      HandledReflects(s.table, step.msg, step.faults);
    }
  }

  lemma SentIsQueued(cfg: Config, s: State, m: Message)
    ensures m in Apply(cfg, s, Send(m)).queue
  {
  }

  /** A known message that is no longer in the queue has left it at some step. */
  lemma {:induction false} LeftAtSomeStep(cfg: Config, run: Run, n: nat, m: Message) returns (i: nat)
    requires ValidRun(cfg, run) && n < |run.states|
    requires Known(run, n, m) && m !in run.states[n].queue
    ensures i < n && run.states[i + 1].queue[m] < run.states[i].queue[m]
  {
    assert n > 0 && StepAt(cfg, run, n - 1);
    if m in run.states[n - 1].queue {
      i := n - 1;
    } else {
      SentIsQueued(cfg, run.states[n - 1], m);
      assert run.steps[n - 1] != Send(m);
      assert Known(run, n - 1, m);
      i := LeftAtSomeStep(cfg, run, n - 1, m);
    }
  }

  /** The newest known update of its cluster, without ties. */
  ghost predicate NewestKnown(run: Run, m: Message)
    requires run.states != []
  {
    && IsUpdate(m)
    && Known(run, |run.steps|, m)
    && forall k :: Known(run, |run.steps|, k) && IsUpdate(k) && Name(k) == Name(m) && k != m ==> Time(k) < Time(m)
  }

  /** Over every run, with any faults, orders, duplicates and redeliveries: once the
      newest update of a cluster is no longer in the queue, the table holds exactly that
      update for the cluster, or the initial record, untouched, if that was newer. */
  lemma DrainedQueueHoldsNewest(cfg: Config, run: Run, m: Message)
    requires ValidRun(cfg, run) && Starts(run.states[0])
    requires NewestKnown(run, m) && m !in run.states[|run.steps|].queue
    ensures
      var first, last := run.states[0].table, run.states[|run.steps|].table;
      && Name(m) in last
      && (if TooOld(first, m) then last[Name(m)] == first[Name(m)] else Stores(m, last[Name(m)]))
  {
    var n := |run.steps|;
    var i := LeftAtSomeStep(cfg, run, n, m);
    assert StepAt(cfg, run, i);
    LeavingStep(cfg, run.states[i], run.steps[i], m);
    FlightReflected(cfg, run, i, Flight(m, Applied));
    ReflectedForever(cfg, run, i, n, m);
    RecordOrigin(cfg, run, n, Name(m));
    TimesNeverGoBack(cfg, run, 0, n, Name(m));
  }

  /** A cluster that no known update names keeps its record, or its absence. */
  lemma UnmentionedClustersUntouched(cfg: Config, run: Run, name: string)
    requires ValidRun(cfg, run) && Starts(run.states[0])
    requires forall m :: Known(run, |run.steps|, m) && IsUpdate(m) ==> Name(m) != name
    ensures Lookup(run.states[|run.steps|].table, name) == Lookup(run.states[0].table, name)
  {
    TimesNeverGoBack(cfg, run, 0, |run.steps|, name);
    if name in run.states[|run.steps|].table {
      RecordOrigin(cfg, run, |run.steps|, name);
    }
  }

  /** Whatever cannot be handled stays: a message that is not a well-formed cluster
      update, such as the partial updates that the sync controller publishes, never
      leaves the queue. */
  lemma {:induction false} OtherMessagesStay(cfg: Config, run: Run, i: nat, j: nat, m: Message)
    requires ValidRun(cfg, run) && Starts(run.states[0]) && i <= j < |run.states|
    requires !IsUpdate(m)
    ensures run.states[i].queue[m] <= run.states[j].queue[m]
  {
    if i < j {
      OtherMessagesStay(cfg, run, i, j - 1, m);
      if run.states[j].queue[m] < run.states[j - 1].queue[m] {
        NoLostUpdate(cfg, run, j - 1, j, m);
      }
    }
  }
}
