/** ClusterUpdateHandler.Handle (pkg/apiserver/event/handler.go): last writer wins,
    with a staleness guard, fed by an at-least-once queue. */
module UpdateHandler {
  import opened Common
  import opened Registry

  const CLUSTER_UPDATE := "cluster-update"
  const NANOS_PER_MILLI := 1_000_000

  /** An SQS message: its Type attribute, the decoded body, the SentTimestamp
      attribute as an integer, and the SkipCacheInvalidation attribute. `None`
      stands for a missing or undecodable part. */
  datatype Message = Message(
    kind: Option<string>,
    body: Option<ClusterSpec>,
    sentMillis: Option<int>,
    skipInvalidation: bool)

  /** Which database calls of one Handle misbehave. */
  datatype Faults = Faults(getFails: bool, putReadFails: bool, write: WriteOutcome)

  const NO_FAULTS := Faults(false, false, Written)

  datatype HandleError = WrongType | BadBody | BadSentTime | Db(error: DbError)

  datatype HandleResult = HandleResult(table: Table, result: Result<(), HandleError>)

  /** time.Unix(0, ms * 1000000): the product is an int64. */
  function Stamp(millis: int): int {
    Wrap64(millis * NANOS_PER_MILLI)
  }

  /** A message that Handle can decode: right type, a body, and an int64 sent time. */
  predicate IsUpdate(m: Message) {
    && m.kind == Some(CLUSTER_UPDATE)
    && m.body.Some?
    && m.sentMillis.Some?
    && IsInt64(m.sentMillis.value)
  }

  function Name(m: Message): string
    requires IsUpdate(m)
  {
    m.body.value.name
  }

  function Time(m: Message): int
    requires IsUpdate(m)
  {
    Stamp(m.sentMillis.value)
  }

  /** The received spec with the time under which it is stored. */
  function Stamped(m: Message): ClusterSpec
    requires IsUpdate(m)
  {
    m.body.value.(lastUpdated := FormatTime(Time(m)))
  }

  function StoredTime(table: Table, name: string): Option<int> {
    if name in table then ParseTime(table[name].cluster.lastUpdated) else None
  }

  /** The guard of the staleness branch. */
  predicate TooOld(table: Table, m: Message)
    requires IsUpdate(m)
  {
    var stored := StoredTime(table, Name(m));
    stored.Some? && Time(m) < stored.value
  }

  function Handle(table: Table, m: Message, f: Faults): HandleResult {
    if m.kind != Some(CLUSTER_UPDATE) then HandleResult(table, Err(WrongType))
    else if m.body.None? then HandleResult(table, Err(BadBody))
    else if m.sentMillis.None? || !IsInt64(m.sentMillis.value) then HandleResult(table, Err(BadSentTime))
    else if f.getFails then HandleResult(table, Err(Db(ReadFailed)))
    else if TooOld(table, m) then HandleResult(table, Ok(()))
    else
      var put := Put(table, Stamped(m), f.putReadFails, f.write);
      HandleResult(put.table, if put.result.Ok? then Ok(()) else Err(Db(put.result.error)))
  }

  class ClusterUpdateHandler {
    const db: Database

    constructor (db: Database)
      ensures this.db == db
    {
      this.db := db;
    }

    method HandleEvent(event: Message, f: Faults) returns (r: Result<(), HandleError>)
      modifies db
      ensures HandleResult(db.table, r) == Handle(old(db.table), event, f)
    {
      if event.kind != Some(CLUSTER_UPDATE) {
        return Err(WrongType);
      }
      if event.body.None? {
        return Err(BadBody);
      }
      var rcvCluster := event.body.value;
      if event.sentMillis.None? || !IsInt64(event.sentMillis.value) {
        return Err(BadSentTime);
      }
      var lastUpdated := Stamp(event.sentMillis.value);
      var found := db.GetCluster(rcvCluster.name, f.getFails);
      if found.Err? {
        return Err(Db(found.error));
      }
      if found.value.None? {
        rcvCluster := rcvCluster.(lastUpdated := FormatTime(lastUpdated));
        var created := db.PutCluster(rcvCluster, f.putReadFails, f.write);
        if created.Err? {
          return Err(Db(created.error));
        }
        return Ok(());
      }
      var clusterTime := ParseTime(found.value.value.lastUpdated);
      if clusterTime.Some? && lastUpdated < clusterTime.value {
        return Ok(());
      }
      rcvCluster := rcvCluster.(lastUpdated := FormatTime(lastUpdated));
      var updated := db.PutCluster(rcvCluster, f.putReadFails, f.write);
      if updated.Err? {
        return Err(Db(updated.error));
      }
      return Ok(());
    }
  }

  // ---- One call ---------------------------------------------------------------

  /** The table holds the message's cluster at the message's time or later. */
  predicate Covers(table: Table, m: Message) {
    && IsUpdate(m)
    && var stored := StoredTime(table, Name(m));
       stored.Some? && Time(m) <= stored.value
  }

  /** The stored time of `name` in `after` is not behind the one in `before`. */
  predicate NotBehind(before: Table, after: Table, name: string) {
    StoredTime(before, name).Some? ==>
      && StoredTime(after, name).Some?
      && StoredTime(before, name).value <= StoredTime(after, name).value
  }

  /** Whatever the faults, a call that reports success leaves its message covered,
      and no call moves any cluster's time back, drops a cluster or touches another. */
  lemma HandleSafe(table: Table, m: Message, f: Faults)
    ensures var r := Handle(table, m, f);
      && (r.result.Ok? ==> Covers(r.table, m))
      && (forall name :: NotBehind(table, r.table, name))
      && table.Keys <= r.table.Keys
      && (forall name :: name in table && (!IsUpdate(m) || name != Name(m)) ==> r.table[name] == table[name])
  {
  }

  /** The stored time is later than the message's. */
  predicate IsStale(table: Table, m: Message) {
    && IsUpdate(m) && Name(m) in table
    && table[Name(m)].cluster.lastUpdated.Rfc3339?
    && Stamp(m.sentMillis.value) < table[Name(m)].cluster.lastUpdated.nanos
  }

  /** When a call reports success: for a well-formed update, if the read succeeds and the
      update is stale or its write is acknowledged. Otherwise the error names the first
      thing that went wrong. Without faults, every well-formed update is a success. */
  lemma HandleReports(table: Table, m: Message, f: Faults)
    ensures
      var r := Handle(table, m, f).result;
      && (r.Ok? <==> IsUpdate(m) && !f.getFails && (IsStale(table, m) || f.write == Written))
      && (r == Err(WrongType) <==> m.kind != Some("cluster-update"))
      && (r == Err(BadBody) <==> m.kind == Some("cluster-update") && m.body.None?)
      && (r == Err(BadSentTime) <==>
            && m.kind == Some("cluster-update") && m.body.Some?
            && !(m.sentMillis.Some? && -0x8000_0000_0000_0000 <= m.sentMillis.value <= 0x7FFF_FFFF_FFFF_FFFF))
      && (r == Err(Db(ReadFailed)) <==> IsUpdate(m) && f.getFails)
      && (r == Err(Db(WriteFailed)) <==>
            IsUpdate(m) && !f.getFails && !IsStale(table, m) && f.write != Written)
    ensures Handle(table, m, NO_FAULTS).result.Ok? <==> IsUpdate(m)
  {
  }

  /** What a call does to the table: nothing, unless the update is well formed, read
      without a fault, not stale and not rejected. Then the record of its cluster holds the
      received spec, field by field, at the message's time and under the registration time
      that was stored before, if that was read. */
  lemma HandleStores(table: Table, m: Message, f: Faults)
    ensures
      var after := Handle(table, m, f).table;
      if IsUpdate(m) && !f.getFails && !IsStale(table, m) && f.write != Rejected then
        var body := m.body.value;
        var registeredAt := if body.name in table && !f.putReadFails
                            then table[body.name].cluster.registeredAt else body.registeredAt;
        && after.Keys == table.Keys + {body.name}
        && (forall name :: name in table && name != body.name ==> after[name] == table[name])
        && after[body.name].cluster == ClusterSpec(body.name, body.region, body.environment, body.status, registeredAt,
                                                   Rfc3339(Stamp(m.sentMillis.value)), body.services, body.rest)
      else after == table
  {
  }

  /** Without unacknowledged writes, only a call that reports success changes the table. */
  lemma ChangeReportsSuccess(table: Table, m: Message, f: Faults)
    requires f.write != Unacknowledged && Handle(table, m, f).table != table
    ensures Handle(table, m, f).result.Ok?
  {
  }

  lemma HandleKeepsIndex(table: Table, m: Message, f: Faults)
    requires TableWellIndexed(table)
    ensures TableWellIndexed(Handle(table, m, f).table)
  {
    if IsUpdate(m) {
      PutKeepsIndex(table, Stamped(m), f.putReadFails, f.write);
    }
  }

  /** Sent times keep their order as stored times on exactly the range where the
      nanosecond product fits an int64 (up to the year 2262). */
  lemma StampExact(millis: int)
    requires IsInt64(millis)
    ensures Stamp(millis) == millis * NANOS_PER_MILLI <==> -9_223_372_036_854 <= millis <= 9_223_372_036_854
  {
  }

  // ---- Convergence ------------------------------------------------------------

  /** Fault-free deliveries, one after the other. */
  function DeliverAll(table: Table, ms: seq<Message>): Table {
    if ms == [] then table
    else Handle(DeliverAll(table, ms[..|ms| - 1]), ms[|ms| - 1], NO_FAULTS).table
  }

  function Lookup(table: Table, name: string): Option<Record> {
    if name in table then Some(table[name]) else None
  }

  /** The newest delivered update of a cluster; among equal times the last delivered. */
  function Newest(ms: seq<Message>, name: string): (r: Option<Message>)
    ensures r.Some? ==> r.value in ms && IsUpdate(r.value) && Name(r.value) == name
    ensures forall m :: m in ms && IsUpdate(m) && Name(m) == name ==>
      r.Some? && Time(m) <= Time(r.value)
  {
    if ms == [] then None
    else
      var last := ms[|ms| - 1];
      var front := ms[..|ms| - 1];
      assert ms == front + [last];
      var best := Newest(front, name);
      if !IsUpdate(last) || Name(last) != name then best
      else if best.Some? && Time(last) < Time(best.value) then best
      else Some(last)
  }

  /** The registration time of the first record ever stored for the cluster. */
  function FirstRegisteredAt(table: Table, ms: seq<Message>, name: string): Option<string> {
    if name in table then Some(table[name].cluster.registeredAt)
    else if ms == [] then None
    else if IsUpdate(ms[0]) && Name(ms[0]) == name then Some(ms[0].body.value.registeredAt)
    else FirstRegisteredAt(table, ms[1..], name)
  }

  lemma {:induction false} FirstRegisteredAtSnoc(table: Table, ms: seq<Message>, m: Message, name: string)
    ensures FirstRegisteredAt(table, ms + [m], name) ==
      if FirstRegisteredAt(table, ms, name).Some? then FirstRegisteredAt(table, ms, name)
      else FirstRegisteredAt(table, [m], name)
  {
    if ms == [] {
      assert ms + [m] == [m];
    } else {
      assert (ms + [m])[1..] == ms[1..] + [m];
      FirstRegisteredAtSnoc(table, ms[1..], m, name);
    }
  }

  lemma {:induction false} NewestIsRegistered(table: Table, ms: seq<Message>, name: string)
    ensures FirstRegisteredAt(table, ms, name).Some? <==> name in table || Newest(ms, name).Some?
  {
    if ms != [] {
      var front, last := ms[..|ms| - 1], ms[|ms| - 1];
      assert ms == front + [last];
      NewestIsRegistered(table, front, name);
      FirstRegisteredAtSnoc(table, front, last, name);
    }
  }

  /** What the table should hold for `name` after `ms`, said without replaying them:
      the initial record if it is newer than every update, else the newest update
      under the first registration time. */
  function Expected(table: Table, ms: seq<Message>, name: string): Option<Record> {
    var newest := Newest(ms, name);
    if newest.None? then Lookup(table, name)
    else if TooOld(table, newest.value) then Lookup(table, name)
    else
      NewestIsRegistered(table, ms, name);
      Some(IndexedRecord(
             Stamped(newest.value).(registeredAt := FirstRegisteredAt(table, ms, name).value),
             Time(newest.value)))
  }

  lemma DeliverOne(table: Table, front: seq<Message>, last: Message)
    requires IsUpdate(last)
    requires Lookup(DeliverAll(table, front), Name(last)) == Expected(table, front, Name(last))
    ensures Lookup(Handle(DeliverAll(table, front), last, NO_FAULTS).table, Name(last))
         == Expected(table, front + [last], Name(last))
  {
    var name := Name(last);
    assert (front + [last])[..|front|] == front;
    FirstRegisteredAtSnoc(table, front, last, name);
    NewestIsRegistered(table, front, name);
    NewestIsRegistered(table, front + [last], name);
    var newest := Newest(front, name);
    if newest.Some? && !TooOld(table, newest.value) {
      assert StoredTime(DeliverAll(table, front), name) == Some(Time(newest.value));
    } else {
      assert Lookup(DeliverAll(table, front), name) == Lookup(table, name);
    }
  }

  /** Any delivery order with any duplicates, from any table: the outcome is the
      newest update, computed without replaying. */
  lemma {:induction false} DeliveredIsExpected(table: Table, ms: seq<Message>, name: string)
    ensures Lookup(DeliverAll(table, ms), name) == Expected(table, ms, name)
  {
    if ms != [] {
      var front, last := ms[..|ms| - 1], ms[|ms| - 1];
      assert ms == front + [last];
      DeliveredIsExpected(table, front, name);
      FirstRegisteredAtSnoc(table, front, last, name);
      NewestIsRegistered(table, front, name);
      NewestIsRegistered(table, ms, name);
      var before := DeliverAll(table, front);
      var after := Handle(before, last, NO_FAULTS).table;
      assert DeliverAll(table, ms) == after;
      if !IsUpdate(last) || Name(last) != name {
        assert Lookup(after, name) == Lookup(before, name);
        assert Newest(ms, name) == Newest(front, name);
      } else {
        DeliverOne(table, front, last);
      }
    }
  }

  /** No two different updates of one cluster carry the same time. */
  predicate DistinctTimes(ms: seq<Message>) {
    forall a, b :: a in ms && b in ms && IsUpdate(a) && IsUpdate(b) && Name(a) == Name(b) && Time(a) == Time(b)
      ==> a == b
  }

  function IgnoringRegistration(r: Option<Record>): Option<Record> {
    if r.None? then None
    else Some(r.value.(cluster := r.value.cluster.(registeredAt := "")))
  }

  lemma NewestDependsOnSet(ms: seq<Message>, ns: seq<Message>, name: string)
    requires DistinctTimes(ms)
    requires forall m :: m in ms <==> m in ns
    ensures Newest(ms, name) == Newest(ns, name)
  {
    var a, b := Newest(ms, name), Newest(ns, name);
    if a.Some? {
      assert a.value in ns;
      assert b.value in ms;
    }
  }

  /** Convergence: two delivery histories of the same updates, in any orders and with
      any duplicates, leave the same table, except that a cluster with no record at
      the start keeps the registration time of whichever update came first. */
  lemma Convergence(table: Table, ms: seq<Message>, ns: seq<Message>, name: string)
    requires DistinctTimes(ms)
    requires forall m :: m in ms <==> m in ns
    ensures IgnoringRegistration(Lookup(DeliverAll(table, ms), name))
         == IgnoringRegistration(Lookup(DeliverAll(table, ns), name))
    ensures name in table ==> Lookup(DeliverAll(table, ms), name) == Lookup(DeliverAll(table, ns), name)
  {
    DeliveredIsExpected(table, ms, name);
    DeliveredIsExpected(table, ns, name);
    NewestDependsOnSet(ms, ns, name);
    NewestIsRegistered(table, ms, name);
    NewestIsRegistered(table, ns, name);
  }

  /** With equal times the order shows, and only then: two updates of one cluster
      commute (up to the registration time) exactly when their times differ, both are
      older than the stored record, or they carry the same spec. */
  lemma OrderShowsOnlyOnTies(table: Table, a: Message, b: Message)
    requires IsUpdate(a) && IsUpdate(b) && Name(a) == Name(b)
    ensures
      (IgnoringRegistration(Lookup(DeliverAll(table, [a, b]), Name(a)))
       == IgnoringRegistration(Lookup(DeliverAll(table, [b, a]), Name(a))))
      <==>
      (|| Time(a) != Time(b)
       || TooOld(table, a)
       || Stamped(a).(registeredAt := "") == Stamped(b).(registeredAt := ""))
  {
    DeliveredIsExpected(table, [a, b], Name(a));
    DeliveredIsExpected(table, [b, a], Name(a));
    NewestOfTwo(a, b);
    NewestOfTwo(b, a);
  }

  lemma NewestOfTwo(a: Message, b: Message)
    requires IsUpdate(a) && IsUpdate(b) && Name(a) == Name(b)
    ensures Newest([a, b], Name(a)) == Some(if Time(b) < Time(a) then a else b)
  {
    assert [a, b][..1] == [a];
    assert [a][..0] == [] && Newest([a], Name(a)) == Some(a);
  }

  // ---- Get, check and put are not one atomic step -------------------------------

  /** A handler's write after its check, when other handlers may have run between. */
  function LateWrite(table: Table, m: Message): Table
    requires IsUpdate(m)
  {
    Put(table, Stamped(m), false, Written).table
  }

  /** A write that follows a stale check moves the cluster's time back exactly when the
      check, repeated at the moment of the write, would have refused it. */
  lemma LateWriteRegresses(table: Table, m: Message)
    requires IsUpdate(m)
    ensures !NotBehind(table, LateWrite(table, m), Name(m)) <==> TooOld(table, m)
  {
  }

  /** Two overlapping handlers lose the newer update: both read the table before
      either writes, the newer writes first. */
  lemma OverlappingHandlersLoseAnUpdate(older: Message, newer: Message)
    requires IsUpdate(older) && IsUpdate(newer) && Name(older) == Name(newer) && Time(older) < Time(newer)
    ensures !TooOld(map[], older) && !TooOld(map[], newer)
    ensures Covers(LateWrite(map[], newer), newer)
    ensures !Covers(LateWrite(LateWrite(map[], newer), older), newer)
  {
  }
}
