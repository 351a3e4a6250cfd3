/** The registry's records and its DynamoDB table (pkg/database/database.go). */
module Registry {
  import opened Common

  /** An RFC 3339 text is represented by the instant it denotes, in nanoseconds
      since 1970; any other text is kept as it is. */
  datatype Timestamp = Rfc3339(nanos: int) | NotATime(text: string)

  function ParseTime(t: Timestamp): Option<int> {
    match t
    case Rfc3339(n) => Some(n)
    case NotATime(_) => None
  }

  function FormatTime(nanos: int): Timestamp {
    Rfc3339(nanos)
  }

  const NANOS_PER_SECOND := 1_000_000_000

  /** time.Time.Unix: whole seconds, rounded down. */
  function UnixSeconds(nanos: int): int {
    nanos / NANOS_PER_SECOND
  }

  type ServiceItem = map<string, map<string, string>>

  /** The fields of ClusterSpec that the server looks at; `rest` stands for all others. */
  datatype ClusterSpec = ClusterSpec(
    name: string,
    region: string,
    environment: string,
    status: string,
    registeredAt: string,
    lastUpdated: Timestamp,
    services: map<string, ServiceItem>,
    rest: string)

  /** ClusterDb: the stored item, with the columns that the index queries use. */
  datatype Record = Record(
    name: string,
    kind: string,
    region: string,
    environment: string,
    status: string,
    lastUpdatedUnix: int,
    cluster: ClusterSpec)

  type Table = map<string, Record>

  /** What a write call did: an unacknowledged write reached the table but the
      caller saw an error. */
  datatype WriteOutcome = Written | Rejected | Unacknowledged

  datatype DbError = ReadFailed | BadTime | WriteFailed

  datatype PutResult = PutResult(table: Table, result: Result<(), DbError>)

  function IndexedRecord(spec: ClusterSpec, nanos: int): Record {
    Record(spec.name, "cluster", spec.region, spec.environment, spec.status, UnixSeconds(nanos), spec)
  }

  /** PutCluster: the stored registration time wins over the received one when the
      preliminary read finds a record; the read's error is ignored. */
  function Put(table: Table, spec: ClusterSpec, readFails: bool, write: WriteOutcome): PutResult {
    match ParseTime(spec.lastUpdated)
    case None => PutResult(table, Err(BadTime))
    case Some(nanos) =>
      var kept := if !readFails && spec.name in table
                  then spec.(registeredAt := table[spec.name].cluster.registeredAt)
                  else spec;
      match write
      case Written => PutResult(table[spec.name := IndexedRecord(kept, nanos)], Ok(()))
      case Rejected => PutResult(table, Err(WriteFailed))
      case Unacknowledged => PutResult(table[spec.name := IndexedRecord(kept, nanos)], Err(WriteFailed))
  }

  class Database {
    var table: Table

    constructor (initial: Table)
      ensures table == initial
    {
      table := initial;
    }

    method GetCluster(name: string, fails: bool) returns (r: Result<Option<ClusterSpec>, DbError>)
      ensures fails ==> r == Err(ReadFailed)
      ensures !fails && name in table ==> r == Ok(Some(table[name].cluster))
      ensures !fails && name !in table ==> r == Ok(None)
    {
      if fails {
        return Err(ReadFailed);
      }
      if name !in table {
        return Ok(None);
      }
      return Ok(Some(table[name].cluster));
    }

    method PutCluster(spec: ClusterSpec, readFails: bool, write: WriteOutcome)
      returns (r: Result<(), DbError>)
      modifies this
      ensures PutResult(table, r) == Put(old(table), spec, readFails, write)
    {
      var lastUpdated := ParseTime(spec.lastUpdated);
      if lastUpdated.None? {
        return Err(BadTime);
      }
      var cluster := spec;
      var existing := GetCluster(spec.name, readFails);
      if existing.Ok? && existing.value.Some? {
        cluster := cluster.(registeredAt := existing.value.value.registeredAt);
      }
      var item := Record(cluster.name, "cluster", cluster.region, cluster.environment, cluster.status,
                         UnixSeconds(lastUpdated.value), cluster);
      if write.Rejected? {
        return Err(WriteFailed);
      }
      table := table[cluster.name := item];
      if write.Unacknowledged? {
        return Err(WriteFailed);
      }
      return Ok(());
    }
  }

  // ---- Index agreement -------------------------------------------------------

  /** The columns repeat the spec, and the stored time parses. */
  predicate WellIndexed(r: Record) {
    && r.kind == "cluster"
    && r.name == r.cluster.name
    && r.region == r.cluster.region
    && r.environment == r.cluster.environment
    && r.status == r.cluster.status
    && r.cluster.lastUpdated.Rfc3339?
    && r.lastUpdatedUnix == UnixSeconds(r.cluster.lastUpdated.nanos)
  }

  predicate TableWellIndexed(table: Table) {
    forall name :: name in table ==> WellIndexed(table[name]) && table[name].name == name
  }

  /** A put, whatever its faults, keeps every column in agreement with its spec. */
  lemma PutKeepsIndex(table: Table, spec: ClusterSpec, readFails: bool, write: WriteOutcome)
    requires TableWellIndexed(table)
    ensures TableWellIndexed(Put(table, spec, readFails, write).table)
  {
  }

  /** A put succeeds exactly if the spec's time parses and the write is acknowledged; it
      changes nothing exactly if the time does not parse or the write is rejected, or if
      the very record was there before. */
  lemma PutReports(table: Table, spec: ClusterSpec, readFails: bool, write: WriteOutcome)
    ensures
      var put := Put(table, spec, readFails, write);
      && (put.result.Ok? <==> spec.lastUpdated.Rfc3339? && write == Written)
      && (put.result == Err(BadTime) <==> spec.lastUpdated.NotATime?)
      && (spec.lastUpdated.NotATime? || write == Rejected ==> put.table == table)
      && (spec.lastUpdated.Rfc3339? && write != Rejected ==> spec.name in put.table)
  {
  }

  /** The registration time survives a write exactly when the preliminary read
      succeeded or the received time was the stored one anyway. */
  lemma PutKeepsRegisteredAt(table: Table, spec: ClusterSpec, readFails: bool, write: WriteOutcome)
    requires spec.name in table && ParseTime(spec.lastUpdated).Some? && write != Rejected
    ensures Put(table, spec, readFails, write).table[spec.name].cluster.registeredAt
            == table[spec.name].cluster.registeredAt
            <==> !readFails || spec.registeredAt == table[spec.name].cluster.registeredAt
  {
  }
}
