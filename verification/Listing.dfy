/** The list queries of pkg/database/database.go: column filters, the server's pages,
    the offset window and the service listings. */
module Listing {
  import opened Common
  import opened Registry

  // ---- Column filters -----------------------------------------------------------

  /** One conjunct of the query's filter expression. */
  datatype ColumnTest =
    | StatusIs(s: string)
    | StatusIsNot(s: string)
    | RegionIs(s: string)
    | EnvironmentIs(s: string)
    | UpdatedSince(unix: int)

  predicate Passes(test: ColumnTest, r: Record) {
    match test
    case StatusIs(s) => r.status == s
    case StatusIsNot(s) => r.status != s
    case RegionIs(s) => r.region == s
    case EnvironmentIs(s) => r.environment == s
    case UpdatedSince(unix) => r.lastUpdatedUnix >= unix
  }

  /** The key condition and the filter expression of the index query. */
  predicate Selected(tests: seq<ColumnTest>, r: Record) {
    r.kind == "cluster" && forall t :: t in tests ==> Passes(t, r)
  }

  /** The query parameters; `since` is the lastUpdated text, if one is given. */
  datatype Criteria = Criteria(region: string, environment: string, status: string, since: Option<Timestamp>)

  /** The filter as its documentation puts it, on specs: empty texts do not restrict,
      and without a status the deleted clusters are left out. */
  predicate Wanted(q: Criteria, c: ClusterSpec) {
    && (q.status != "" ==> c.status == q.status)
    && (q.status == "" ==> c.status != "Deleted")
    && (q.region != "" ==> c.region == q.region)
    && (q.environment != "" ==> c.environment == q.environment)
    && (q.since.Some? ==>
          var bound, stored := ParseTime(q.since.value), ParseTime(c.lastUpdated);
          bound.Some? && stored.Some? && UnixSeconds(bound.value) <= UnixSeconds(stored.value))
  }

  function WantedAmong(q: Criteria, clusters: seq<ClusterSpec>): seq<ClusterSpec> {
    Filter(c => Wanted(q, c), clusters)
  }

  predicate BadCriteria(q: Criteria) {
    q.since.Some? && ParseTime(q.since.value).None?
  }

  /** The filter built step by step; on agreeing columns it selects what is wanted. */
  method BuildQuery(q: Criteria) returns (r: Result<seq<ColumnTest>, string>)
    ensures r.Err? <==> BadCriteria(q)
    ensures r.Ok? ==> forall rec :: WellIndexed(rec) ==> (Selected(r.value, rec) <==> Wanted(q, rec.cluster))
  {
    var statusTest := if q.status != "" then StatusIs(q.status) else StatusIsNot("Deleted");
    var filter := [] + [statusTest];
    SelectedSnoc([], statusTest);
    if q.region != "" {
      SelectedSnoc(filter, RegionIs(q.region));
      filter := filter + [RegionIs(q.region)];
    }
    if q.environment != "" {
      SelectedSnoc(filter, EnvironmentIs(q.environment));
      filter := filter + [EnvironmentIs(q.environment)];
    }
    if q.since.Some? {
      var t := ParseTime(q.since.value);
      if t.None? {
        return Err("Error converting lastUpdated parameter to RFC3339");
      }
      SelectedSnoc(filter, UpdatedSince(UnixSeconds(t.value)));
      filter := filter + [UpdatedSince(UnixSeconds(t.value))];
    }
    return Ok(filter);
  }

  lemma SelectedSnoc(tests: seq<ColumnTest>, test: ColumnTest)
    ensures forall r :: Selected(tests + [test], r) <==> Selected(tests, r) && Passes(test, r)
  {
    forall r ensures Selected(tests + [test], r) <==> Selected(tests, r) && Passes(test, r) {
      assert forall t :: t in tests + [test] <==> t in tests || t == test;
    }
  }

  /** The whole-second time test misses nothing at or after the bound, and admits
      nothing a full second early. */
  lemma SinceTest(bound: int, stored: int)
    ensures bound <= stored ==> UnixSeconds(bound) <= UnixSeconds(stored)
    ensures UnixSeconds(bound) <= UnixSeconds(stored) ==> bound - NANOS_PER_SECOND < stored
    ensures bound % NANOS_PER_SECOND == 0 ==> (UnixSeconds(bound) <= UnixSeconds(stored) <==> bound <= stored)
  {
  }

  // ---- The server's pages ---------------------------------------------------------

  /** One reply: the selected items of a page and the key to continue from, if any. */
  datatype Page = Page(items: seq<Record>, lastEvaluatedKey: Option<nat>)

  /** The server keeps the index cut into pages, some of which may be empty, and
      answers one at a time; the calls for the pages in `failing` fail. */
  datatype Server = Server(pages: seq<seq<Record>>, failing: set<nat>)

  function Reply(server: Server, selected: Record -> bool, start: nat): Result<Page, string>
    requires start < |server.pages|
  {
    if start in server.failing then Err("query failed")
    else Ok(Page(Filter(selected, server.pages[start]),
                 if start + 1 < |server.pages| then Some(start + 1) else None))
  }

  function Spec(r: Record): ClusterSpec {
    r.cluster
  }

  /** The paging loop returns every selected record in stored order, however the
      server cuts its pages, unless one of the calls fails. */
  method QueryAll(server: Server, selected: Record -> bool) returns (r: Result<seq<ClusterSpec>, string>)
    requires server.pages != []
    ensures r.Ok? <==> forall i :: 0 <= i < |server.pages| ==> i !in server.failing
    ensures r.Ok? ==> r.value == Map(Spec, Filter(selected, Flatten(server.pages)))
  {
    var clusters: seq<ClusterSpec> := [];
    var exclusiveStartKey: nat := 0;
    while true
      invariant exclusiveStartKey < |server.pages|
      invariant forall i :: 0 <= i < exclusiveStartKey ==> i !in server.failing
      invariant clusters == Map(Spec, Filter(selected, Flatten(server.pages[..exclusiveStartKey])))
      decreases |server.pages| - exclusiveStartKey
    {
      var result := Reply(server, selected, exclusiveStartKey);
      if result.Err? {
        return Err(result.error);
      }
      clusters := AppendItems(clusters, result.value.items);
      PagesSnoc(server.pages, exclusiveStartKey, selected);
      if result.value.lastEvaluatedKey.None? {
        assert server.pages[..exclusiveStartKey + 1] == server.pages;
        break;
      }
      exclusiveStartKey := result.value.lastEvaluatedKey.value;
    }
    return Ok(clusters);
  }

  /** The inner loop over the items of a page. */
  method AppendItems(clusters: seq<ClusterSpec>, items: seq<Record>) returns (r: seq<ClusterSpec>)
    ensures r == clusters + Map(Spec, items)
  {
    r := clusters;
    for i := 0 to |items|
      invariant r == clusters + Map(Spec, items[..i])
    {
      MapSnoc(Spec, items, i);
      r := r + [items[i].cluster];
    }
    assert items[..|items|] == items;
  }

  lemma PagesSnoc(pages: seq<seq<Record>>, n: nat, selected: Record -> bool)
    requires n < |pages|
    ensures Map(Spec, Filter(selected, Flatten(pages[..n + 1])))
         == Map(Spec, Filter(selected, Flatten(pages[..n]))) + Map(Spec, Filter(selected, pages[n]))
  {
    assert pages[..n + 1] == pages[..n] + [pages[n]];
    FlattenAppend(pages[..n], [pages[n]]);
    assert [pages[n]][1..] == [] && Flatten([pages[n]]) == pages[n];
    FilterAppend(selected, Flatten(pages[..n]), pages[n]);
  }

  // ---- The offset window ------------------------------------------------------------

  datatype Listed =
    | Listed(items: seq<ClusterSpec>, count: int, more: bool)
    | Failed(error: string)
    | Panicked

  /** clusters[offset : min(offset + limit, count)], with Go's int arithmetic; a slice
      expression out of range panics. */
  function Window(all: seq<ClusterSpec>, offset: int, limit: int): Listed {
    var end := if Wrap64(offset + limit) > |all| then |all| else Wrap64(offset + limit);
    if 0 <= offset <= end then Listed(all[offset..end], end - offset, end < |all|) else Panicked
  }

  /** The exact inputs on which the window does not panic. */
  lemma WindowDefined(all: seq<ClusterSpec>, offset: int, limit: int)
    requires IsInt64(offset) && IsInt64(limit) && |all| <= MAX_INT64
    ensures Window(all, offset, limit).Listed?
      <==> 0 <= offset <= |all| && 0 <= limit && offset + limit <= MAX_INT64
  {
  }

  method ListClusters(server: Server, offset: int, limit: int, q: Criteria) returns (r: Listed)
    requires server.pages != []
    requires forall rec :: rec in Flatten(server.pages) ==> WellIndexed(rec)
    ensures r.Failed? <==> BadCriteria(q) || exists i :: 0 <= i < |server.pages| && i in server.failing
    ensures !r.Failed? ==> r == Window(WantedAmong(q, Map(Spec, Flatten(server.pages))), offset, limit)
  {
    var filter := BuildQuery(q);
    if filter.Err? {
      return Failed(filter.error);
    }
    var selected := rec => Selected(filter.value, rec);
    var clusters := QueryAll(server, selected);
    if clusters.Err? {
      return Failed(clusters.error);
    }
    SelectThenProject(q, selected, Flatten(server.pages));
    var count := |clusters.value|;
    var startIndex := offset;
    var endIndex := Wrap64(offset + limit);
    var more := false;
    if endIndex > count {
      endIndex := count;
    }
    if endIndex < count {
      more := true;
    }
    if !(0 <= startIndex <= endIndex) {
      return Panicked;
    }
    return Listed(clusters.value[startIndex..endIndex], endIndex - startIndex, more);
  }

  lemma {:induction false} SelectThenProject(q: Criteria, selected: Record -> bool, recs: seq<Record>)
    requires forall rec :: rec in recs ==> (selected(rec) <==> Wanted(q, rec.cluster))
    ensures Map(Spec, Filter(selected, recs)) == WantedAmong(q, Map(Spec, recs))
  {
    if recs != [] {
      var first, rest := recs[0], recs[1..];
      SelectThenProject(q, selected, rest);
      MapCons(Spec, recs);
      assert Map(Spec, recs)[1..] == Map(Spec, rest);
      assert selected(first) <==> Wanted(q, first.cluster);
      if selected(first) {
        MapCons(Spec, Filter(selected, recs));
        assert Filter(selected, recs)[1..] == Filter(selected, rest);
      }
    }
  }

  /** A client that asks for the next window while `more` holds sees every item
      exactly once, in order, and stops. */
  method ReadAllWindows(all: seq<ClusterSpec>, limit: int) returns (seen: seq<ClusterSpec>, requests: nat)
    requires 0 < limit && |all| + limit <= MAX_INT64
    ensures seen == all
    ensures all != [] ==> (requests - 1) * limit < |all| <= requests * limit
  {
    seen, requests := [], 0;
    var more := true;
    while more
      invariant |seen| <= |all| && seen == all[..|seen|]
      invariant more ==> |seen| == requests * limit && (all != [] ==> |seen| < |all|)
      invariant !more ==> seen == all && requests > 0
      invariant !more && all != [] ==> (requests - 1) * limit < |all| <= requests * limit
      decreases more, |all| - |seen|
    {
      var w := Window(all, |seen|, limit);
      assert w.items == all[|seen|..|seen| + w.count];
      assert (requests + 1) * limit == requests * limit + limit;
      seen, requests, more := seen + w.items, requests + 1, w.more;
    }
  }

  // ---- Service listings --------------------------------------------------------------

  /** The clusters that carry the service, each reduced to that service's metadata. */
  function WithService(clusters: seq<ClusterSpec>, serviceId: string): seq<ClusterSpec> {
    if clusters == [] then []
    else if serviceId in clusters[0].services then
      [clusters[0].(services := map[serviceId := clusters[0].services[serviceId]])]
      + WithService(clusters[1..], serviceId)
    else WithService(clusters[1..], serviceId)
  }

  lemma {:induction false} WithServiceAppend(a: seq<ClusterSpec>, b: seq<ClusterSpec>, serviceId: string)
    ensures WithService(a + b, serviceId) == WithService(a, serviceId) + WithService(b, serviceId)
  {
    if a == [] {
      assert a + b == b;
    } else {
      assert (a + b)[1..] == a[1..] + b;
      WithServiceAppend(a[1..], b, serviceId);
    }
  }

  lemma {:induction false} WithServiceFacts(clusters: seq<ClusterSpec>, serviceId: string)
    ensures |WithService(clusters, serviceId)| <= |clusters|
    ensures WithService(clusters, serviceId) == [] <==> forall c :: c in clusters ==> serviceId !in c.services
    ensures forall r :: r in WithService(clusters, serviceId) ==> r.services.Keys == {serviceId}
  {
    if clusters != [] {
      WithServiceFacts(clusters[1..], serviceId);
      assert clusters == [clusters[0]] + clusters[1..];
    }
  }

  /** The service listing, cluster by cluster: those that carry the service, in order, each
      with its own fields and, of its services, that one as it stands. */
  lemma {:induction false} WithServiceExact(clusters: seq<ClusterSpec>, serviceId: string)
    ensures
      var having := Filter((c: ClusterSpec) => serviceId in c.services, clusters);
      var listed := WithService(clusters, serviceId);
      && |listed| == |having|
      && forall i :: 0 <= i < |listed| ==>
           serviceId in having[i].services
           && listed[i] == having[i].(services := map[serviceId := having[i].services[serviceId]])
  {
    if clusters != [] {
      WithServiceExact(clusters[1..], serviceId);
    }
  }

  /** The nested loop over the services of every listed cluster. */
  method SelectService(clusters: seq<ClusterSpec>, serviceId: string) returns (r: seq<ClusterSpec>)
    ensures r == WithService(clusters, serviceId)
  {
    r := [];
    for i := 0 to |clusters|
      invariant r == WithService(clusters[..i], serviceId)
    {
      var cluster := clusters[i];
      assert clusters[..i + 1] == clusters[..i] + [cluster];
      WithServiceAppend(clusters[..i], [cluster], serviceId);
      var remaining := cluster.services.Keys;
      ghost var before := r;
      var appended := false;
      while remaining != {}
        invariant remaining <= clusters[i].services.Keys
        invariant appended <==> serviceId in clusters[i].services && serviceId !in remaining
        invariant !appended ==> r == before
        invariant appended ==>
          r == before + [clusters[i].(services := map[serviceId := clusters[i].services[serviceId]])]
      {
        var service :| service in remaining;
        remaining := remaining - {service};
        if service == serviceId {
          var serviceMetadata := map[service := clusters[i].services[service]];
          cluster := clusters[i].(services := serviceMetadata);
          r := r + [cluster];
          appended := true;
        }
      }
    }
    assert clusters[..|clusters|] == clusters;
  }

  /** ListClustersWithService: filters one window of the cluster listing. The call
      passes its environment and region the other way round. */
  method ListClustersWithService(server: Server, serviceId: string, offset: int, limit: int,
                                 environment: string, region: string, status: string, since: Option<Timestamp>)
    returns (r: Listed)
    requires server.pages != []
    requires forall rec :: rec in Flatten(server.pages) ==> WellIndexed(rec)
    requires IsInt64(offset) && IsInt64(limit) && |Flatten(server.pages)| <= MAX_INT64
    ensures r.Failed? <==>
      (|| BadCriteria(Criteria(environment, region, status, since))
       || exists i :: 0 <= i < |server.pages| && i in server.failing)
    ensures !r.Failed? ==>
      var w := Window(WantedAmong(Criteria(environment, region, status, since),
                                  Map(Spec, Flatten(server.pages))), offset, limit);
      if w.Listed? then r == Listed(WithService(w.items, serviceId), |WithService(w.items, serviceId)|, false)
      else r == Panicked
  {
    var listed := ListClusters(server, offset, limit, Criteria(environment, region, status, since));
    if !listed.Listed? {
      return listed;
    }
    var clustersWithService := SelectService(listed.items, serviceId);
    var count := |clustersWithService|;
    var endIndex := Wrap64(offset + limit);
    var more := false;
    if endIndex > count {
      endIndex := count;
    }
    if endIndex < count {
      more := true;
    }
    WithServiceFacts(listed.items, serviceId);
    FilterMembers(c => Wanted(Criteria(environment, region, status, since), c), Map(Spec, Flatten(server.pages)));
    WindowDefined(WantedAmong(Criteria(environment, region, status, since), Map(Spec, Flatten(server.pages))),
                  offset, limit);
    return Listed(clustersWithService, count, more);
  }

  /** The listings of consecutive windows from `offset` on, put end to end. */
  function ServiceWindows(all: seq<ClusterSpec>, serviceId: string, offset: int, limit: int): seq<ClusterSpec>
    requires 0 <= offset <= |all| && 0 < limit && |all| + limit <= MAX_INT64
    decreases |all| - offset
  {
    var w := Window(all, offset, limit);
    if w.more then WithService(w.items, serviceId) + ServiceWindows(all, serviceId, offset + w.count, limit)
    else WithService(w.items, serviceId)
  }

  /** Service listings distribute over windows: end to end they are the whole list
      filtered once, in order. */
  lemma {:induction false} ServiceWindowsAreWhole(all: seq<ClusterSpec>, serviceId: string, offset: int, limit: int)
    requires 0 <= offset <= |all| && 0 < limit && |all| + limit <= MAX_INT64
    ensures ServiceWindows(all, serviceId, offset, limit) == WithService(all[offset..], serviceId)
    decreases |all| - offset
  {
    var w := Window(all, offset, limit);
    if w.more {
      ServiceWindowsAreWhole(all, serviceId, offset + w.count, limit);
      assert all[offset..] == w.items + all[offset + w.count..];
      WithServiceAppend(w.items, all[offset + w.count..], serviceId);
    } else {
      assert w.items == all[offset..];
    }
  }

  /** Since the service listing never reports `more`, a client that trusts it stops
      after one window. It has then seen everything exactly when no later cluster
      carries the service. */
  lemma OneWindowSuffices(all: seq<ClusterSpec>, serviceId: string, limit: int)
    requires 0 <= limit <= |all| <= MAX_INT64
    ensures WithService(Window(all, 0, limit).items, serviceId) == WithService(all, serviceId)
      <==> forall c :: c in all[limit..] ==> serviceId !in c.services
  {
    assert Window(all, 0, limit).items == all[..limit];
    assert all == all[..limit] + all[limit..];
    WithServiceAppend(all[..limit], all[limit..], serviceId);
    WithServiceFacts(all[limit..], serviceId);
  }

  /** Exchanging the environment and region criteria asks the same question of every
      cluster exactly when the two texts are equal, whatever the other criteria. */
  lemma SwappedCriteria(environment: string, region: string, status: string, since: Option<Timestamp>)
    requires since.Some? ==> ParseTime(since.value).Some?
    ensures (forall c :: Wanted(Criteria(environment, region, status, since), c)
                    <==> Wanted(Criteria(region, environment, status, since), c))
      <==> environment == region
  {
    if environment != region {
      var r := if region != "" then region else environment + "x";
      var e := if environment != "" then environment else region + "x";
      var updated := if since.Some? then since.value else Rfc3339(0);
      var c := ClusterSpec("c", r, e, if status == "" then "Active" else status, "", updated, map[], "");
      assert Wanted(Criteria(region, environment, status, since), c);
      assert !Wanted(Criteria(environment, region, status, since), c);
    }
  }
}
