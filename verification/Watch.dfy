/** Watched resources: which objects a resource reads, and which ClusterSyncs an object
    event triggers (pkg/sync/parser/parser.go, pkg/sync/manager/controller.go). */
module Watch {
  import opened Common

  datatype GroupVersion = GroupVersion(group: string, version: string)

  datatype Gvk = Gvk(gv: GroupVersion, kind: string)

  datatype Requirement = Requirement(key: string, operator: string, values: seq<string>)

  /** A label selector as a list of requirements; matchLabels are `In` with one value. */
  datatype Selector = Selector(requirements: seq<Requirement>)

  datatype WatchedResource = WatchedResource(
    kind: string,
    apiVersion: string,
    namespace: string,
    name: string,
    selector: Option<Selector>)

  datatype Object<+B> = Object(gvk: Gvk, namespace: string, name: string, labels: map<string, string>, body: B)

  /** schema.ParseGroupVersion. */
  function ParseGroupVersion(text: string): Option<GroupVersion> {
    if text == "" || text == "/" then Some(GroupVersion("", ""))
    else
      var i := IndexOf(text, '/');
      if i == |text| then Some(GroupVersion("", text))
      else if '/' in text[i + 1..] then None
      else Some(GroupVersion(text[..i], text[i + 1..]))
  }

  function IndexOf(s: string, c: char): (n: nat)
    ensures n <= |s|
    ensures c !in s[..n]
    ensures n < |s| ==> s[n] == c
  {
    if s == [] || s[0] == c then 0 else 1 + IndexOf(s[1..], c)
  }

  /** A printed group and version is read back, a text without a slash is a version alone,
      and a text with more than one slash is refused. */
  lemma GroupVersionRoundTrip(group: string, version: string)
    requires '/' !in group
    ensures '/' !in version ==> ParseGroupVersion(group + "/" + version) == Some(GroupVersion(group, version))
    ensures '/' in version ==> ParseGroupVersion(group + "/" + version) == None
    ensures ParseGroupVersion(group) == Some(GroupVersion("", group))
  {
    var text := group + "/" + version;
    FirstSlash(text, |group|);
    assert text[..|group|] == group && text[|group| + 1..] == version;
    FirstSlash(group, |group|);
    if text == "/" {
      assert group == "" && version == "";
    }
  }

  lemma FirstSlash(text: string, n: nat)
    requires n <= |text| && '/' !in text[..n] && (n < |text| ==> text[n] == '/')
    ensures IndexOf(text, '/') == n
  {
  }

  function ResourceGvk(res: WatchedResource): Option<Gvk> {
    var gv := ParseGroupVersion(res.apiVersion);
    if gv.None? then None else Some(Gvk(gv.value, res.kind))
  }

  /** metav1.LabelSelectorAsSelector succeeds. */
  predicate SelectorParses(s: Selector) {
    forall r :: r in s.requirements ==>
      || (r.operator in ["In", "NotIn"] && r.values != [])
      || (r.operator in ["Exists", "DoesNotExist"] && r.values == [])
  }

  predicate Satisfies(labels: map<string, string>, r: Requirement) {
    && (r.operator == "In" ==> r.key in labels && labels[r.key] in r.values)
    && (r.operator == "NotIn" ==> r.key !in labels || labels[r.key] !in r.values)
    && (r.operator == "Exists" ==> r.key in labels)
    && (r.operator == "DoesNotExist" ==> r.key !in labels)
  }

  predicate SelectorMatches(s: Selector, labels: map<string, string>) {
    forall r :: r in s.requirements ==> Satisfies(labels, r)
  }

  // ---- Reading ---------------------------------------------------------------------------

  /** The API server's objects; a kind, namespace and name identify at most one. */
  predicate UniqueKeys<B>(objects: seq<Object<B>>) {
    forall i, j :: 0 <= i < j < |objects| ==>
      objects[i].gvk != objects[j].gvk || objects[i].namespace != objects[j].namespace
      || objects[i].name != objects[j].name
  }

  predicate IsNamed<B>(o: Object<B>, gvk: Gvk, namespace: string, name: string) {
    o.gvk == gvk && o.namespace == namespace && o.name == name
  }

  /** An empty namespace in a list call means all namespaces. */
  predicate IsListed<B>(o: Object<B>, gvk: Gvk, namespace: string, selector: Option<Selector>) {
    && o.gvk == gvk
    && (namespace == "" || o.namespace == namespace)
    && (selector.Some? ==> SelectorMatches(selector.value, o.labels))
  }

  /** getObjectsForResource. A name asks for that one object and ignores the selector. If
      the API call fails, a get is an error, but a list is taken to be empty. */
  function ObjectsFor<B>(res: WatchedResource, objects: seq<Object<B>>, callFails: bool)
    : Result<seq<Object<B>>, string>
  {
    var gvk := ResourceGvk(res);
    if gvk.None? then Err("unexpected GroupVersion string")
    else if res.name != "" then
      var found := Filter((o: Object<B>) => IsNamed(o, gvk.value, res.namespace, res.name), objects);
      if callFails || found == [] then Err("cannot get object") else Ok([found[0]])
    else if res.selector.Some? && !SelectorParses(res.selector.value) then Err("invalid label selector")
    else if callFails then Ok([])
    else Ok(Filter((o: Object<B>) => IsListed(o, gvk.value, res.namespace, res.selector), objects))
  }

  /** When a resource yields objects at all: a named one if its object exists and the call
      succeeds; a list if its selector parses, even if the call fails. */
  lemma ObjectsFound<B>(res: WatchedResource, objects: seq<Object<B>>, callFails: bool)
    ensures ObjectsFor(res, objects, callFails).Ok? <==>
      && ResourceGvk(res).Some?
      && (if res.name != ""
          then !callFails && exists o :: o in objects && IsNamed(o, ResourceGvk(res).value, res.namespace, res.name)
          else res.selector.Some? ==> SelectorParses(res.selector.value))
  {
    if ResourceGvk(res).Some? {
      var gvk := ResourceGvk(res).value;
      var named := (o: Object<B>) => IsNamed(o, gvk, res.namespace, res.name);
      FilterFinds(named, objects);
      if i :| 0 <= i < |objects| && named(objects[i]) {
        assert objects[i] in objects && IsNamed(objects[i], gvk, res.namespace, res.name);
      }
      if o :| o in objects && IsNamed(o, gvk, res.namespace, res.name) {
        var i :| 0 <= i < |objects| && objects[i] == o;
        assert named(objects[i]);
      }
    }
  }

  /** Parsing the resource would read the object. */
  predicate Reads<B(==)>(res: WatchedResource, objects: seq<Object<B>>, o: Object<B>) {
    var r := ObjectsFor(res, objects, false);
    r.Ok? && o in r.value
  }

  lemma {:induction false} TheNamedObject<B>(
    objects: seq<Object<B>>, gvk: Gvk, namespace: string, name: string, o: Object<B>)
    requires UniqueKeys(objects) && o in objects && IsNamed(o, gvk, namespace, name)
    ensures var found := Filter((x: Object<B>) => IsNamed(x, gvk, namespace, name), objects);
      found != [] && found[0] == o
  {
    if !IsNamed(objects[0], gvk, namespace, name) {
      TheNamedObject(objects[1..], gvk, namespace, name, o);
    } else if objects[0] != o {
      assert false;
    }
  }

  /** What an existing object must look like to be read. */
  lemma ReadsIff<B>(res: WatchedResource, objects: seq<Object<B>>, o: Object<B>)
    requires UniqueKeys(objects) && o in objects
    requires ResourceGvk(res).Some? && (res.selector.Some? ==> SelectorParses(res.selector.value))
    ensures Reads(res, objects, o) <==>
      if res.name != "" then IsNamed(o, ResourceGvk(res).value, res.namespace, res.name)
      else IsListed(o, ResourceGvk(res).value, res.namespace, res.selector)
  {
    var gvk := ResourceGvk(res).value;
    if res.name != "" {
      var p := (x: Object<B>) => IsNamed(x, gvk, res.namespace, res.name);
      FilterMembers(p, objects);
      if IsNamed(o, gvk, res.namespace, res.name) {
        TheNamedObject(objects, gvk, res.namespace, res.name, o);
      } else if Filter(p, objects) != [] {
        assert Filter(p, objects)[0] in Filter(p, objects);
      }
    } else {
      FilterMembers((x: Object<B>) => IsListed(x, gvk, res.namespace, res.selector), objects);
    }
  }

  // ---- Triggering ------------------------------------------------------------------------

  datatype ClusterSyncRef = ClusterSyncRef(namespace: string, name: string, watched: seq<WatchedResource>)

  datatype Request = Request(namespace: string, name: string)

  /** The test that the event mapping makes for one watched resource. */
  predicate Triggers<B>(cs: ClusterSyncRef, res: WatchedResource, o: Object<B>) {
    && ResourceGvk(res) == Some(o.gvk)
    && cs.namespace == o.namespace
    && (res.name != "" ==> res.name == o.name)
    && (res.selector.Some? && res.selector.value.requirements != [] ==> SelectorMatches(res.selector.value, o.labels))
  }

  predicate Triggered<B>(cs: ClusterSyncRef, o: Object<B>) {
    exists i :: 0 <= i < |cs.watched| && Triggers(cs, cs.watched[i], o)
  }

  predicate ResourceParses(res: WatchedResource) {
    ResourceGvk(res).Some? && (res.selector.Some? ==> SelectorParses(res.selector.value))
  }

  predicate SyncParses(cs: ClusterSyncRef) {
    forall res :: res in cs.watched ==> ResourceParses(res)
  }

  function RequestsFor<B>(list: seq<ClusterSyncRef>, o: Object<B>): seq<Request> {
    if list == [] then []
    else
      var last := list[|list| - 1];
      RequestsFor(list[..|list| - 1], o) + (if Triggered(last, o) then [Request(last.namespace, last.name)] else [])
  }

  /** The scan cannot go past the resource: its version does not parse, or its selector,
      which is only parsed when all else matches, does not. */
  predicate Stops<B>(cs: ClusterSyncRef, res: WatchedResource, o: Object<B>) {
    || ResourceGvk(res).None?
    || (&& ResourceGvk(res) == Some(o.gvk) && cs.namespace == o.namespace && (res.name != "" ==> res.name == o.name)
        && res.selector.Some? && res.selector.value.requirements != [] && !SelectorParses(res.selector.value))
  }

  /** The scan stops in the ClusterSync before any resource triggers. */
  ghost predicate ScanStops<B>(cs: ClusterSyncRef, o: Object<B>) {
    exists i :: StopsAt(cs, o, i)
  }

  predicate StopsAt<B>(cs: ClusterSyncRef, o: Object<B>, i: int) {
    && 0 <= i < |cs.watched| && Stops(cs, cs.watched[i], o)
    && forall k :: 0 <= k < i ==> !Stops(cs, cs.watched[k], o) && !Triggers(cs, cs.watched[k], o)
  }

  /** The inner loop: whether some watched resource triggers; an error exactly if one that
      does not parse is met before. */
  method CheckSync<B>(watchedGvk: Gvk, o: Object<B>, cs: ClusterSyncRef) returns (r: Result<bool, string>)
    requires o.gvk == watchedGvk
    ensures r.Err? <==> ScanStops(cs, o)
    ensures r.Ok? ==> r.value == Triggered(cs, o)
    ensures r.Err? ==> !SyncParses(cs)
  {
    for j := 0 to |cs.watched|
      invariant forall k :: 0 <= k < j ==> !Triggers(cs, cs.watched[k], o) && !Stops(cs, cs.watched[k], o)
    {
      var res := cs.watched[j];
      var gv := ParseGroupVersion(res.apiVersion);
      if gv.None? {
        assert res in cs.watched && !ResourceParses(res);
        assert StopsAt(cs, o, j);
        return Err("failed to parse resource API version");
      }
      if gv.value != watchedGvk.gv || res.kind != watchedGvk.kind || cs.namespace != o.namespace {
        continue;
      }
      if res.name != "" && res.name != o.name {
        continue;
      }
      if res.selector.Some? && res.selector.value.requirements != [] {
        if !SelectorParses(res.selector.value) {
          assert res in cs.watched && !ResourceParses(res);
          assert StopsAt(cs, o, j);
          return Err("failed to parse resource label selector");
        }
        if !SelectorMatches(res.selector.value, o.labels) {
          continue;
        }
      }
      assert Triggers(cs, cs.watched[j], o) && !Stops(cs, cs.watched[j], o);
      return Ok(true);
    }
    return Ok(false);
  }

  /** enqueueRequestsFromMapFunc: one request for every triggered ClusterSync, in list
      order; a resource that does not parse ends the scan early. */
  method EnqueueRequests<B>(watchedGvk: Gvk, o: Object<B>, list: seq<ClusterSyncRef>)
    returns (requests: seq<Request>, ghost scanned: nat)
    ensures scanned <= |list|
    ensures scanned < |list| ==> !SyncParses(list[scanned])
    ensures o.gvk == watchedGvk ==>
      (scanned < |list| ==> ScanStops(list[scanned], o)) && forall i :: 0 <= i < scanned ==> !ScanStops(list[i], o)
    ensures (forall cs :: cs in list ==> SyncParses(cs)) ==> scanned == |list|
    ensures o.gvk == watchedGvk ==> requests == RequestsFor(list[..scanned], o)
    ensures o.gvk != watchedGvk ==> requests == []
  {
    requests, scanned := [], |list|;
    if o.gvk != watchedGvk {
      return;
    }
    for i := 0 to |list|
      invariant requests == RequestsFor(list[..i], o)
      invariant scanned == |list|
      invariant forall k :: 0 <= k < i ==> !ScanStops(list[k], o)
    {
      var clusterSync := list[i];
      assert list[..i + 1][..i] == list[..i];
      var triggered := CheckSync(watchedGvk, o, clusterSync);
      if triggered.Err? {
        assert clusterSync in list;
        scanned := i;
        return;
      }
      if triggered.value {
        requests := requests + [Request(clusterSync.namespace, clusterSync.name)];
      }
    }
    assert list[..|list|] == list;
  }

  predicate DistinctSyncs(list: seq<ClusterSyncRef>) {
    forall i, j :: 0 <= i < j < |list| ==>
      Request(list[i].namespace, list[i].name) != Request(list[j].namespace, list[j].name)
  }

  /** The requests are exactly those of the triggered ClusterSyncs, without repetition. */
  lemma {:induction false} RequestsExact<B>(list: seq<ClusterSyncRef>, o: Object<B>)
    requires DistinctSyncs(list)
    ensures forall r :: r in RequestsFor(list, o) <==>
      exists i :: 0 <= i < |list| && r == Request(list[i].namespace, list[i].name) && Triggered(list[i], o)
    ensures forall a, b :: 0 <= a < b < |RequestsFor(list, o)| ==> RequestsFor(list, o)[a] != RequestsFor(list, o)[b]
  {
    if list != [] {
      var front, last := list[..|list| - 1], list[|list| - 1];
      RequestsExact(front, o);
      forall r ensures r in RequestsFor(list, o) <==>
        exists i :: 0 <= i < |list| && r == Request(list[i].namespace, list[i].name) && Triggered(list[i], o)
      {
        if r in RequestsFor(front, o) {
          var i :| 0 <= i < |front| && r == Request(front[i].namespace, front[i].name) && Triggered(front[i], o);
          assert list[i] == front[i];
        }
      }
      assert Request(last.namespace, last.name) !in RequestsFor(front, o);
    }
  }

  predicate Selects<B>(res: WatchedResource, o: Object<B>) {
    res.selector.Some? ==> SelectorMatches(res.selector.value, o.labels)
  }

  /** When triggering and reading agree on an object of the resource's kind: under the
      object's own name, if reading looks in the namespace exactly when triggering does
      and the selector, which reading ignores, matches; without a name, if every object
      that the selector matches is in the namespace of both or of neither. */
  predicate Agrees<B>(cs: ClusterSyncRef, res: WatchedResource, o: Object<B>) {
    ResourceGvk(res) == Some(o.gvk) ==>
      if res.name != "" then
        res.name == o.name ==>
          (res.namespace == o.namespace <==> cs.namespace == o.namespace && Selects(res, o))
      else
        Selects(res, o) ==>
          (res.namespace == "" || res.namespace == o.namespace <==> cs.namespace == o.namespace)
  }

  /** For every resource that parses, an event of the object triggers exactly when parsing
      would read the object, if and only if the two agree in this sense. */
  lemma TriggersAsReadsIff<B>(cs: ClusterSyncRef, res: WatchedResource, objects: seq<Object<B>>, o: Object<B>)
    requires UniqueKeys(objects) && o in objects && ResourceParses(res)
    ensures (Triggers(cs, res, o) <==> Reads(res, objects, o)) <==> Agrees(cs, res, o)
  {
    ReadsIff(res, objects, o);
  }

  /** They agree on every object if the resource names its ClusterSync's own namespace and
      does not set both a name and a selector. */
  predicate Aligned(cs: ClusterSyncRef, res: WatchedResource) {
    && res.namespace == cs.namespace && res.namespace != ""
    && !(res.name != "" && res.selector.Some? && res.selector.value.requirements != [])
  }

  lemma AlignedAgrees<B>(cs: ClusterSyncRef, res: WatchedResource, o: Object<B>)
    requires Aligned(cs, res)
    ensures Agrees(cs, res, o)
  {
  }

  /** Trigger and read agreement: an object event enqueues a ClusterSync exactly when
      parsing one of its resources would read that object. */
  lemma TriggerIffRead<B>(cs: ClusterSyncRef, objects: seq<Object<B>>, o: Object<B>)
    requires UniqueKeys(objects) && o in objects && SyncParses(cs)
    requires forall res :: res in cs.watched ==> Agrees(cs, res, o)
    ensures Triggered(cs, o) <==> exists i :: 0 <= i < |cs.watched| && Reads(cs.watched[i], objects, o)
  {
    forall i | 0 <= i < |cs.watched|
      ensures Triggers(cs, cs.watched[i], o) <==> Reads(cs.watched[i], objects, o)
    {
      assert cs.watched[i] in cs.watched;
      TriggersAsReadsIff(cs, cs.watched[i], objects, o);
    }
  }

  /** And of the requests sent, which are those of the first `scanned` ClusterSyncs, all
      of them if all parse: there is one for a ClusterSync, and only one, if and only if
      the scan came to it and parsing it would read that object. */
  lemma RequestsIffRead<B>(list: seq<ClusterSyncRef>, scanned: nat, objects: seq<Object<B>>, o: Object<B>, k: nat)
    requires DistinctSyncs(list) && scanned <= |list| && k < |list|
    requires UniqueKeys(objects) && o in objects && SyncParses(list[k])
    requires forall res :: res in list[k].watched ==> Agrees(list[k], res, o)
    ensures
      var cs, requests := list[k], RequestsFor(list[..scanned], o);
      && multiset(requests)[Request(cs.namespace, cs.name)] <= 1
      && (Request(cs.namespace, cs.name) in requests <==>
            k < scanned && exists i :: 0 <= i < |cs.watched| && Reads(cs.watched[i], objects, o))
  {
    var cs, seen := list[k], list[..scanned];
    TriggerIffRead(cs, objects, o);
    RequestsExact(seen, o);
    DistinctOnce(RequestsFor(seen, o), Request(cs.namespace, cs.name));
    if k < scanned {
      assert seen[k] == cs;
    }
  }

  lemma {:induction false} DistinctOnce(requests: seq<Request>, r: Request)
    requires forall a, b :: 0 <= a < b < |requests| ==> requests[a] != requests[b]
    ensures multiset(requests)[r] <= 1
  {
    if requests != [] {
      DistinctOnce(requests[1..], r);
      assert requests == [requests[0]] + requests[1..];
      assert requests[0] !in requests[1..];
    }
  }
}
