/** ClusterUpdateHandler.Handle as the source runs it: several handlers at once, with
    nothing that keeps a handler's read and check together with its write
    (pkg/apiserver/event/handler.go, pkg/sqs/sqs.go). */
module HandlerRace {
  import opened Common
  import opened Registry
  import opened UpdateHandler

  /** A handler whose check has passed and whose write is to come; `overtaken` once a newer
      update of its cluster has been written since the check. */
  datatype Pending = Pending(msg: Message, overtaken: bool)

  datatype RaceState = RaceState(table: Table, pending: seq<Pending>)

  /** A handler reads the record and checks the time, or the k-th handler that has done so
      writes. Database calls succeed. */
  datatype RaceStep = Check(msg: Message) | Write(k: nat)

  function Start(table: Table): RaceState {
    RaceState(table, [])
  }

  predicate CanStep(s: RaceState, step: RaceStep) {
    match step
    case Check(m) => IsUpdate(m)
    case Write(k) => k < |s.pending| && IsUpdate(s.pending[k].msg)
  }

  predicate OlderUpdate(a: Message, b: Message) {
    IsUpdate(a) && IsUpdate(b) && Name(a) == Name(b) && Time(a) < Time(b)
  }

  function Overtake(p: Pending, m: Message): Pending {
    if OlderUpdate(p.msg, m) then p.(overtaken := true) else p
  }

  function Do(s: RaceState, step: RaceStep): RaceState
    requires CanStep(s, step)
  {
    match step
    case Check(m) => if TooOld(s.table, m) then s else s.(pending := s.pending + [Pending(m, false)])
    case Write(k) =>
      var m := s.pending[k].msg;
      RaceState(LateWrite(s.table, m), Map(p => Overtake(p, m), s.pending[..k] + s.pending[k + 1..]))
  }

  predicate Possible(s: RaceState, steps: seq<RaceStep>)
    decreases |steps|
  {
    steps == [] || (CanStep(s, steps[0]) && Possible(Do(s, steps[0]), steps[1..]))
  }

  function Final(s: RaceState, steps: seq<RaceStep>): RaceState
    requires Possible(s, steps)
    decreases |steps|
  {
    if steps == [] then s else Final(Do(s, steps[0]), steps[1..])
  }

  // ---- When the table can go back ---------------------------------------------------------

  /** No step moves any cluster's time back. */
  ghost predicate NeverBack(s: RaceState, steps: seq<RaceStep>)
    requires Possible(s, steps)
    decreases |steps|
  {
    steps == [] ||
    (&& (forall name :: NotBehind(s.table, Do(s, steps[0]).table, name))
     && NeverBack(Do(s, steps[0]), steps[1..]))
  }

  /** No handler writes after a newer update of its cluster was written behind its check. */
  predicate NoneOvertaken(s: RaceState, steps: seq<RaceStep>)
    requires Possible(s, steps)
    decreases |steps|
  {
    steps == [] ||
    (&& (steps[0].Write? ==> !s.pending[steps[0].k].overtaken)
     && NoneOvertaken(Do(s, steps[0]), steps[1..]))
  }

  /** A handler is overtaken exactly when its check, repeated now, would refuse. */
  predicate Tracks(s: RaceState) {
    forall i :: 0 <= i < |s.pending| ==>
      IsUpdate(s.pending[i].msg) && (s.pending[i].overtaken <==> TooOld(s.table, s.pending[i].msg))
  }

  /** A write changes the stored time of its own cluster only. */
  lemma WrittenTimes(table: Table, m: Message, name: string)
    requires IsUpdate(m)
    ensures StoredTime(LateWrite(table, m), name) == if name == Name(m) then Some(Time(m)) else StoredTime(table, name)
  {
  }

  lemma StepTracks(s: RaceState, step: RaceStep)
    requires Tracks(s) && CanStep(s, step) && (step.Write? ==> !s.pending[step.k].overtaken)
    ensures Tracks(Do(s, step))
  {
    if step.Write? {
      var m := s.pending[step.k].msg;
      var others, t := s.pending[..step.k] + s.pending[step.k + 1..], Do(s, step);
      forall i | 0 <= i < |t.pending|
        ensures IsUpdate(t.pending[i].msg) && (t.pending[i].overtaken <==> TooOld(t.table, t.pending[i].msg))
      {
        var j := if i < step.k then i else i + 1;
        assert others[i] == s.pending[j];
        WrittenTimes(s.table, m, Name(s.pending[j].msg));
      }
    }
  }

  /** A step moves a time back exactly when it is the write of an overtaken handler. */
  lemma BackIffOvertaken(s: RaceState, step: RaceStep)
    requires Tracks(s) && CanStep(s, step)
    ensures (forall name :: NotBehind(s.table, Do(s, step).table, name))
       <==> (step.Write? ==> !s.pending[step.k].overtaken)
  {
    if step.Write? {
      var p, after := s.pending[step.k], Do(s, step).table;
      LateWriteRegresses(s.table, p.msg);
      assert after == LateWrite(s.table, p.msg);
      assert NotBehind(s.table, after, Name(p.msg)) <==> !p.overtaken;
      forall name | name != Name(p.msg) ensures NotBehind(s.table, after, name) {
        WrittenTimes(s.table, p.msg, name);
      }
    }
  }

  lemma {:induction false} NeverBackFrom(s: RaceState, steps: seq<RaceStep>)
    requires Tracks(s) && Possible(s, steps)
    ensures NeverBack(s, steps) <==> NoneOvertaken(s, steps)
    decreases |steps|
  {
    if steps != [] {
      BackIffOvertaken(s, steps[0]);
      if steps[0].Write? ==> !s.pending[steps[0].k].overtaken {
        StepTracks(s, steps[0]);
        NeverBackFrom(Do(s, steps[0]), steps[1..]);
      }
    }
  }

  /** Over every interleaving of handlers: stored times never go back if and only if no
      handler writes after a newer update of its cluster was written behind its check. */
  lemma NeverBackIffNoneOvertaken(table: Table, steps: seq<RaceStep>)
    requires Possible(Start(table), steps)
    ensures NeverBack(Start(table), steps) <==> NoneOvertaken(Start(table), steps)
  {
    NeverBackFrom(Start(table), steps);
  }

  // ---- When the handlers might as well be atomic ---------------------------------------------

  /** The messages in the order of their effect: a refused one when it is checked, the
      others when they are written. */
  function Effects(s: RaceState, steps: seq<RaceStep>): seq<Message>
    requires Possible(s, steps)
    decreases |steps|
  {
    if steps == [] then []
    else
      var first := match steps[0]
        case Check(m) => if TooOld(s.table, m) then [m] else []
        case Write(k) => [s.pending[k].msg];
      first + Effects(Do(s, steps[0]), steps[1..])
  }

  lemma {:induction false} DeliverFirst(table: Table, m: Message, ms: seq<Message>)
    ensures DeliverAll(table, [m] + ms) == DeliverAll(Handle(table, m, NO_FAULTS).table, ms)
  {
    if ms == [] {
      assert [m] + ms == [m] && [m][..0] == [];
      assert DeliverAll(table, []) == table;
    } else {
      var front, last := ms[..|ms| - 1], ms[|ms| - 1];
      assert ([m] + ms)[..|ms|] == [m] + front && ([m] + ms)[|ms|] == last;
      DeliverFirst(table, m, front);
    }
  }

  /** A step on which nobody is overtaken is the atomic handling of its message. */
  lemma StepIsAtomic(s: RaceState, step: RaceStep)
    requires Tracks(s) && CanStep(s, step) && (step.Write? ==> !s.pending[step.k].overtaken)
    ensures step.Write? ==> Do(s, step).table == Handle(s.table, s.pending[step.k].msg, NO_FAULTS).table
    ensures step.Check? ==> Do(s, step).table == s.table
    ensures step.Check? && TooOld(s.table, step.msg) ==> Handle(s.table, step.msg, NO_FAULTS).table == s.table
  {
  }

  lemma {:induction false} SerialFrom(s: RaceState, steps: seq<RaceStep>)
    requires Tracks(s) && Possible(s, steps) && NoneOvertaken(s, steps)
    ensures Final(s, steps).table == DeliverAll(s.table, Effects(s, steps))
    decreases |steps|
  {
    if steps != [] {
      var step, t := steps[0], Do(s, steps[0]);
      var later := Effects(t, steps[1..]);
      StepTracks(s, step);
      StepIsAtomic(s, step);
      SerialFrom(t, steps[1..]);
      match step
      case Write(k) => DeliverFirst(s.table, s.pending[k].msg, later);
      case Check(m) =>
        if TooOld(s.table, m) {
          DeliverFirst(s.table, m, later);
        } else {
          assert [] + later == later;
        }
    }
  }

  /** Then the run is as good as one whose handlers are atomic, and the table is what the
      newest update says. */
  lemma SerialIfNoneOvertaken(table: Table, steps: seq<RaceStep>, name: string)
    requires Possible(Start(table), steps) && NoneOvertaken(Start(table), steps)
    ensures Final(Start(table), steps).table == DeliverAll(table, Effects(Start(table), steps))
    ensures Lookup(Final(Start(table), steps).table, name) == Expected(table, Effects(Start(table), steps), name)
  {
    SerialFrom(Start(table), steps);
    DeliveredIsExpected(table, Effects(Start(table), steps), name);
  }

  // ---- What is left in any case ---------------------------------------------------------------

  /** The last message written for the cluster, if any. */
  function LastWritten(s: RaceState, steps: seq<RaceStep>, name: string): Option<Message>
    requires Possible(s, steps)
    decreases |steps|
  {
    if steps == [] then None
    else
      var later := LastWritten(Do(s, steps[0]), steps[1..], name);
      if later.Some? then later
      else if steps[0].Write? && Name(s.pending[steps[0].k].msg) == name then Some(s.pending[steps[0].k].msg)
      else None
  }

  /** Overtaken or not, a cluster ends at the time of the last write for it. So the newest
      of the written updates survives exactly when none older is written after it. */
  lemma {:induction false} LastWriteStands(s: RaceState, steps: seq<RaceStep>, name: string)
    requires Possible(s, steps)
    ensures
      var m := LastWritten(s, steps, name);
      && (m.Some? ==> IsUpdate(m.value))
      && StoredTime(Final(s, steps).table, name) == if m.Some? then Some(Time(m.value)) else StoredTime(s.table, name)
    decreases |steps|
  {
    if steps != [] {
      LastWriteStands(Do(s, steps[0]), steps[1..], name);
      if steps[0].Write? {
        WrittenTimes(s.table, s.pending[steps[0].k].msg, name);
      }
    }
  }

  /** Two handlers check on an empty table, the newer writes, then the older. */
  lemma OlderWritesLast(older: Message, newer: Message)
    requires OlderUpdate(older, newer)
    ensures
      var steps := [Check(older), Check(newer), Write(1), Write(0)];
      && Possible(Start(map[]), steps)
      && !NoneOvertaken(Start(map[]), steps)
      && StoredTime(Final(Start(map[]), steps).table, Name(newer)) == Some(Time(older))
  {
    var steps := [Check(older), Check(newer), Write(1), Write(0)];
    var s0 := Start(map[]);
    var s1 := Do(s0, Check(older));
    var s2 := Do(s1, Check(newer));
    assert s2 == RaceState(map[], [Pending(older, false), Pending(newer, false)]);
    var s3 := Do(s2, Write(1));
    assert s3.pending == [Pending(older, true)];
    var s4 := Do(s3, Write(0));
    WrittenTimes(s3.table, older, Name(newer));
    assert steps[1..] == [Check(newer), Write(1), Write(0)];
    assert steps[1..][1..] == [Write(1), Write(0)];
    assert steps[1..][1..][1..] == [Write(0)] && [Write(0)][1..] == [];
    assert Possible(s3, [Write(0)]) && Final(s3, [Write(0)]) == s4 && !NoneOvertaken(s3, [Write(0)]);
    assert Possible(s2, [Write(1), Write(0)]) && Final(s2, [Write(1), Write(0)]) == s4;
    assert !NoneOvertaken(s2, [Write(1), Write(0)]);
    assert Possible(s1, steps[1..]) && Final(s1, steps[1..]) == s4 && !NoneOvertaken(s1, steps[1..]);
  }
}
