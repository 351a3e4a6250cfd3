/** The resource parser and its buffer (pkg/sync/parser/parser.go). */
module Parser {
  import opened Common
  import opened Tiers
  import opened Watch

  /** A partial cluster spec. `None` tiers are Go's nil slice, which the merge treats
      differently from an empty one; `rest` holds the other non-zero fields. */
  datatype PartialSpec = PartialSpec(tiers: Option<seq<Tier>>, rest: map<string, string>)

  const EMPTY_SPEC := PartialSpec(None, map[])

  /** What the two tier handlers can read from an object. */
  datatype Body = Body(pool: Option<Pool>, runtime: Option<string>)

  datatype Handler = MachinePools | EksConfigs

  /** The objects of the API server, and the resources for which its call fails. */
  datatype World = World(objects: seq<Object<Body>>, failing: set<WatchedResource>)

  /** ClusterSpec.Merge: a nil tier list is replaced, any other is joined by name. */
  function MergeSpec(dst: PartialSpec, src: PartialSpec): PartialSpec {
    var srcs := if src.tiers.None? then [] else src.tiers.value;
    PartialSpec(
      if dst.tiers.Some? then Some(MergeTiers(dst.tiers.value, srcs))
      else if srcs != [] then Some(srcs)
      else None,
      dst.rest + src.rest)
  }

  function AsSlice(tiers: seq<Tier>): Option<seq<Tier>> {
    if tiers == [] then None else Some(tiers)
  }

  function PoolOf(o: Object<Body>): Option<Pool> { o.body.pool }
  function RuntimeOf(o: Object<Body>): (string, Option<string>) { (o.name, o.body.runtime) }

  /** The tiers and configs that readable objects describe. */
  function Pools(objects: seq<Object<Body>>): seq<Tier> {
    Map(TierOr, Map(PoolOf, objects))
  }

  function Configs(objects: seq<Object<Body>>): seq<EksConfig> {
    Map(ToConfig, Map(RuntimeOf, objects))
  }

  predicate Readable(h: Handler, objects: seq<Object<Body>>) {
    forall o :: o in objects ==> if h.MachinePools? then o.body.pool.Some? else o.body.runtime.Some?
  }

  /** ObjectHandler.Handle of the two handlers that concern tiers. */
  function PatchFrom(h: Handler, objects: seq<Object<Body>>): Result<PartialSpec, string> {
    if !Readable(h, objects) then Err("field not found")
    else
      Ok(PartialSpec(AsSlice(if h.MachinePools? then PoolTiers(Pools(objects)) else EksTiers(Configs(objects))), map[]))
  }

  function Seen(res: WatchedResource, world: World): Result<seq<Object<Body>>, string> {
    ObjectsFor(res, world.objects, res in world.failing)
  }

  function ParseOne(handlers: map<Gvk, Handler>, buffer: PartialSpec, res: WatchedResource, world: World)
    : Result<PartialSpec, string>
  {
    var gvk := ResourceGvk(res);
    if gvk.None? then Err("unexpected GroupVersion string")
    else if gvk.value !in handlers then Err("no handler registered")
    else
      var objects := Seen(res, world);
      if objects.Err? then Err(objects.error)
      else
        var patch := PatchFrom(handlers[gvk.value], objects.value);
        if patch.Err? then Err(patch.error) else Ok(MergeSpec(buffer, patch.value))
  }

  /** The fold of the watched resources into the buffer; parsing goes on after an error,
      and the first error is reported. */
  function ParseResources(handlers: map<Gvk, Handler>, buffer: PartialSpec, error: Option<string>,
                          watched: seq<WatchedResource>, world: World): (PartialSpec, Option<string>)
    decreases |watched|
  {
    if watched == [] then (buffer, error)
    else
      var p := ParseOne(handlers, buffer, watched[0], world);
      ParseResources(handlers,
                     if p.Ok? then p.value else buffer,
                     if p.Err? && error.None? then Some(p.error) else error,
                     watched[1..], world)
  }

  class ResourceParser {
    var handlers: map<Gvk, Handler>
    var buffer: PartialSpec

    constructor ()
      ensures handlers == map[] && buffer == EMPTY_SPEC
    {
      handlers, buffer := map[], EMPTY_SPEC;
    }

    method RegisterHandlerForGVK(gvk: Gvk, h: Handler)
      modifies this
      ensures handlers == old(handlers)[gvk := h] && buffer == old(buffer)
    {
      handlers := handlers[gvk := h];
    }

    method SetBuffer(spec: PartialSpec)
      modifies this
      ensures buffer == spec && handlers == old(handlers)
    {
      buffer := spec;
    }

    /** The merge into the buffer, with the tier join done in place. */
    method MergeBuffer(patch: PartialSpec)
      modifies this
      ensures buffer == MergeSpec(old(buffer), patch) && handlers == old(handlers)
    {
      var rest := buffer.rest + patch.rest;
      var srcs := if patch.tiers.None? then [] else patch.tiers.value;
      if buffer.tiers.None? {
        buffer := PartialSpec(if srcs != [] then Some(srcs) else None, rest);
      } else {
        var tiers := buffer.tiers.value;
        var dsts := new Tier[|tiers|](i requires 0 <= i < |tiers| => tiers[i]);
        assert dsts[..] == tiers;
        MergeTiersInPlace(dsts, srcs);
        buffer := PartialSpec(Some(dsts[..]), rest);
      }
    }

    /** The registered handler's loop over the objects. */
    method RunHandler(h: Handler, objects: seq<Object<Body>>) returns (r: Result<PartialSpec, string>)
      ensures r == PatchFrom(h, objects)
    {
      var tiers: Result<seq<Tier>, string>;
      match h {
        case MachinePools =>
          tiers := HandlePools(Map(PoolOf, objects));
          PoolsReadable(objects);
        case EksConfigs =>
          tiers := HandleEksConfigs(Map(RuntimeOf, objects));
          RuntimesReadable(objects);
      }
      if tiers.Err? {
        return Err("field not found");
      }
      return Ok(PartialSpec(AsSlice(tiers.value), map[]));
    }

    /** Parse merges what the resource's objects say into the buffer, or fails and
        leaves the buffer as it was. */
    method Parse(res: WatchedResource, world: World) returns (r: Result<(), string>)
      modifies this
      ensures handlers == old(handlers)
      ensures var p := ParseOne(old(handlers), old(buffer), res, world);
        if p.Ok? then r.Ok? && buffer == p.value else r == Err(p.error) && buffer == old(buffer)
    {
      var gvk := ResourceGvk(res);
      if gvk.None? {
        return Err("unexpected GroupVersion string");
      }
      if gvk.value !in handlers {
        return Err("no handler registered");
      }
      var objects := ObjectsFor(res, world.objects, res in world.failing);
      if objects.Err? {
        return Err(objects.error);
      }
      var patch := RunHandler(handlers[gvk.value], objects.value);
      if patch.Err? {
        return Err(patch.error);
      }
      MergeBuffer(patch.value);
      return Ok(());
    }
  }

  lemma PoolsReadable(objects: seq<Object<Body>>)
    ensures None in Map(PoolOf, objects) <==> !Readable(MachinePools, objects)
  {
    var pools := Map(PoolOf, objects);
    forall i | 0 <= i < |objects| ensures objects[i] in objects && pools[i] == objects[i].body.pool {
    }
  }

  lemma RuntimesReadable(objects: seq<Object<Body>>)
    ensures (forall o :: o in Map(RuntimeOf, objects) ==> o.1.Some?) <==> Readable(EksConfigs, objects)
  {
    var runtimes := Map(RuntimeOf, objects);
    forall i | 0 <= i < |objects| ensures runtimes[i] in runtimes && runtimes[i].1 == objects[i].body.runtime {
    }
  }

  // ---- Tiers through the parser ---------------------------------------------------------

  /** A resource whose objects are read without an error by the given handler. */
  predicate ReadBy(handlers: map<Gvk, Handler>, res: WatchedResource, world: World, h: Handler) {
    && ResourceGvk(res).Some? && ResourceGvk(res).value in handlers
    && handlers[ResourceGvk(res).value] == h
    && Seen(res, world).Ok? && Readable(h, Seen(res, world).value)
  }

  /** Two resources that are read without an error: the two patches, merged in order. */
  lemma ParsedInOrder(handlers: map<Gvk, Handler>, buffer: PartialSpec, world: World,
                      a: WatchedResource, g: Handler, b: WatchedResource, h: Handler)
    requires ReadBy(handlers, a, world, g) && ReadBy(handlers, b, world, h)
    ensures
      var p, q := PatchFrom(g, Seen(a, world).value), PatchFrom(h, Seen(b, world).value);
      && p.Ok? && q.Ok?
      && ParseResources(handlers, buffer, None, [a, b], world) == (MergeSpec(MergeSpec(buffer, p.value), q.value), None)
  {
    var mid := ParseOne(handlers, buffer, a, world).value;
    var end := ParseOne(handlers, mid, b, world).value;
    assert [a, b][1..] == [b] && [b][1..] == [];
    assert ParseResources(handlers, end, None, [], world) == (end, None);
    assert ParseResources(handlers, mid, None, [b], world) == (end, None);
  }

  /** Two lists of tiers, the first not empty, merged into a buffer without tiers. */
  lemma MergedInOrder(buffer: PartialSpec, first: seq<Tier>, second: seq<Tier>)
    requires buffer.tiers.None? && first != []
    ensures MergeSpec(MergeSpec(buffer, PartialSpec(AsSlice(first), map[])), PartialSpec(AsSlice(second), map[]))
         == PartialSpec(Some(MergeTiers(first, second)), buffer.rest)
  {
    assert buffer.rest + map[] == buffer.rest;
  }

  /** Machine pools and then EKS configs, parsed into a buffer without tiers: no error,
      the rest of the buffer as it was, and the tier join. */
  lemma PoolsThenEks(handlers: map<Gvk, Handler>, buffer: PartialSpec, world: World,
                     poolRes: WatchedResource, eksRes: WatchedResource)
    requires ReadBy(handlers, poolRes, world, MachinePools) && ReadBy(handlers, eksRes, world, EksConfigs)
    requires buffer.tiers.None? && Seen(poolRes, world).value != []
    ensures
      var pools, configs := Map(PoolOf, Seen(poolRes, world).value), Map(RuntimeOf, Seen(eksRes, world).value);
      var (parsed, error) := ParseResources(handlers, buffer, None, [poolRes, eksRes], world);
      && error.None? && parsed.rest == buffer.rest && parsed.tiers.Some?
      && Names(parsed.tiers.value) == FirstSeen(Map(PoolName, pools))
      && forall i :: 0 <= i < |parsed.tiers.value| ==>
           var t := parsed.tiers.value[i];
           LastPoolNamed(pools, t.name).Some? && TierIs(t, PoolNamed(pools, t.name), LastRuntimeNamed(configs, t.name))
  {
    var objects, others := Seen(poolRes, world).value, Seen(eksRes, world).value;
    var pools, configs := Pools(objects), Configs(others);
    ParsedInOrder(handlers, buffer, world, poolRes, MachinePools, eksRes, EksConfigs);
    PoolTiersNames(pools);
    FirstSeenMembers(Names(pools));
    assert Names(pools)[0] in Names(pools);
    TierJoin(pools, configs);
    assert PoolTiers(pools) != [];
    MergedInOrder(buffer, PoolTiers(pools), EksTiers(configs));
    JoinedObjects(objects, others, MergeTiers(PoolTiers(pools), EksTiers(configs)));
  }

  /** The join of pools and configs, told of the objects that they were read from. */
  lemma JoinedObjects(objects: seq<Object<Body>>, others: seq<Object<Body>>, joined: seq<Tier>)
    requires Readable(MachinePools, objects) && Names(joined) == FirstSeen(Names(Pools(objects)))
    requires forall i :: 0 <= i < |joined| ==>
      joined[i] == LastPool(Pools(objects), joined[i].name)
                   .(containerRuntime := LastRuntime(Configs(others), joined[i].name))
    ensures
      var pools, configs := Map(PoolOf, objects), Map(RuntimeOf, others);
      && Names(joined) == FirstSeen(Map(PoolName, pools))
      && forall i :: 0 <= i < |joined| ==>
           LastPoolNamed(pools, joined[i].name).Some?
           && TierIs(joined[i], PoolNamed(pools, joined[i].name), LastRuntimeNamed(configs, joined[i].name))
  {
    var pools, configs := Map(PoolOf, objects), Map(RuntimeOf, others);
    PoolsReadable(objects);
    PoolTiersFields(pools);
    PoolTiersNames(Pools(objects));
    FirstSeenMembers(Names(Pools(objects)));
    forall i | 0 <= i < |joined|
      ensures LastPoolNamed(pools, joined[i].name).Some?
      ensures TierIs(joined[i], PoolNamed(pools, joined[i].name), LastRuntimeNamed(configs, joined[i].name))
    {
      assert Names(joined)[i] == joined[i].name;
      LastPoolFields(pools, joined[i].name);
      JoinedFields(pools, configs, joined[i]);
    }
  }

  /** In the other order the EKS configs decide which tiers there are: one per config
      name in first-seen order, with the last pool of that name if there is one. All
      pools survive if and only if each has its config. */
  lemma EksThenPools(handlers: map<Gvk, Handler>, buffer: PartialSpec, world: World,
                     poolRes: WatchedResource, eksRes: WatchedResource)
    requires ReadBy(handlers, poolRes, world, MachinePools) && ReadBy(handlers, eksRes, world, EksConfigs)
    requires buffer.tiers.None? && Seen(eksRes, world).value != []
    ensures
      var pools, configs := Map(PoolOf, Seen(poolRes, world).value), Map(RuntimeOf, Seen(eksRes, world).value);
      var (parsed, error) := ParseResources(handlers, buffer, None, [eksRes, poolRes], world);
      && error.None? && parsed.rest == buffer.rest && parsed.tiers.Some?
      && Names(parsed.tiers.value) == FirstSeen(Map((o: (string, Option<string>)) => o.0, configs))
      && (forall i :: 0 <= i < |parsed.tiers.value| ==>
            var t := parsed.tiers.value[i];
            TierIs(t, PoolNamed(pools, t.name), LastRuntimeNamed(configs, t.name)))
      && ((forall p :: p in Pools(Seen(poolRes, world).value) ==> p.name in Names(parsed.tiers.value))
          <==> forall p :: p in Pools(Seen(poolRes, world).value) ==>
                 Configured(Configs(Seen(eksRes, world).value), p.name))
  {
    var objects, others := Seen(poolRes, world).value, Seen(eksRes, world).value;
    var pools, configs := Pools(objects), Configs(others);
    var eks := EksTiers(configs);
    ParsedInOrder(handlers, buffer, world, eksRes, EksConfigs, poolRes, MachinePools);
    EksTiersNames(configs, configs[0].name);
    assert Configured(configs, configs[0].name);
    assert eks != [];
    MergedInOrder(buffer, eks, PoolTiers(pools));
    ReverseJoin(pools, configs);
    PoolsSurvive(pools, configs);
    ReverseJoinedObjects(objects, others, MergeTiers(eks, PoolTiers(pools)));
  }

  lemma ReverseJoinedObjects(objects: seq<Object<Body>>, others: seq<Object<Body>>, joined: seq<Tier>)
    requires Readable(MachinePools, objects) && Names(joined) == FirstSeen(ConfigNames(Configs(others)))
    requires forall i :: 0 <= i < |joined| ==>
      joined[i] == (if joined[i].name in Names(Pools(objects)) then LastPool(Pools(objects), joined[i].name)
                    else RuntimeTier(joined[i].name, ""))
                   .(containerRuntime := LastRuntime(Configs(others), joined[i].name))
    ensures
      var pools, configs := Map(PoolOf, objects), Map(RuntimeOf, others);
      && Names(joined) == FirstSeen(Map((o: (string, Option<string>)) => o.0, configs))
      && forall i :: 0 <= i < |joined| ==>
           TierIs(joined[i], PoolNamed(pools, joined[i].name), LastRuntimeNamed(configs, joined[i].name))
  {
    var pools, configs := Map(PoolOf, objects), Map(RuntimeOf, others);
    PoolsReadable(objects);
    LastRuntimeFields(configs, "");
    forall i | 0 <= i < |joined|
      ensures TierIs(joined[i], PoolNamed(pools, joined[i].name), LastRuntimeNamed(configs, joined[i].name))
    {
      JoinedFields(pools, configs, joined[i]);
    }
  }

  /** A list call that fails is only logged and reads as an empty list: parsing reports
      success and leaves the buffer as it was, so what the objects said before is silently
      missing. A get call that fails is an error. */
  lemma FailedListIsSilent(handlers: map<Gvk, Handler>, buffer: PartialSpec, res: WatchedResource, world: World)
    requires ResourceParses(res) && ResourceGvk(res).value in handlers && res in world.failing
    ensures res.name == "" ==> ParseOne(handlers, buffer, res, world) == Ok(buffer)
    ensures res.name != "" ==> ParseOne(handlers, buffer, res, world).Err?
  {
    assert buffer.rest + map[] == buffer.rest;
  }

  // ---- Errors of watched resources ---------------------------------------------------------

  /** The resource is read without an error: its version parses, a handler is registered
      for its kind, its objects are found, and the handler can read all of them. */
  predicate IsRead(handlers: map<Gvk, Handler>, res: WatchedResource, world: World) {
    && ResourceGvk(res).Some? && ResourceGvk(res).value in handlers
    && Seen(res, world).Ok? && Readable(handlers[ResourceGvk(res).value], Seen(res, world).value)
  }

  /** Why a resource is not read: the first thing that is wrong with it. */
  function Cause(handlers: map<Gvk, Handler>, res: WatchedResource, world: World): string {
    if ResourceGvk(res).None? then "unexpected GroupVersion string"
    else if ResourceGvk(res).value !in handlers then "no handler registered"
    else if Seen(res, world).Err? then Seen(res, world).error
    else "field not found"
  }

  /** What a resource that is read adds. */
  function Addition(handlers: map<Gvk, Handler>, res: WatchedResource, world: World): PartialSpec {
    if !IsRead(handlers, res, world) then EMPTY_SPEC
    else
      var objects := Seen(res, world).value;
      match handlers[ResourceGvk(res).value]
      case MachinePools => PartialSpec(AsSlice(PoolTiers(Pools(objects))), map[])
      case EksConfigs => PartialSpec(AsSlice(EksTiers(Configs(objects))), map[])
  }

  function Additions(handlers: map<Gvk, Handler>, watched: seq<WatchedResource>, world: World): seq<PartialSpec> {
    Map((res: WatchedResource) => Addition(handlers, res, world),
        Filter((res: WatchedResource) => IsRead(handlers, res, world), watched))
  }

  /** The merge of all of them, in order. */
  function MergeAll(buffer: PartialSpec, patches: seq<PartialSpec>): PartialSpec {
    if patches == [] then buffer
    else MergeSpec(MergeAll(buffer, patches[..|patches| - 1]), patches[|patches| - 1])
  }

  lemma {:induction false} MergeAllFirst(buffer: PartialSpec, p: PartialSpec, rest: seq<PartialSpec>)
    ensures MergeAll(buffer, [p] + rest) == MergeAll(MergeSpec(buffer, p), rest)
  {
    if rest == [] {
      assert [p] + rest == [] + [p];
      MergeAllLast(buffer, [], p);
    } else {
      var front, last := rest[..|rest| - 1], rest[|rest| - 1];
      assert rest == front + [last] && [p] + rest == ([p] + front) + [last];
      MergeAllFirst(buffer, p, front);
      MergeAllLast(buffer, [p] + front, last);
      MergeAllLast(MergeSpec(buffer, p), front, last);
    }
  }

  lemma MergeAllLast(buffer: PartialSpec, front: seq<PartialSpec>, last: PartialSpec)
    ensures MergeAll(buffer, front + [last]) == MergeSpec(MergeAll(buffer, front), last)
  {
    assert (front + [last])[..|front|] == front;
  }

  /** Of the other fields, the last value given stands. */
  lemma {:induction false} LastFieldStands(buffer: PartialSpec, patches: seq<PartialSpec>, key: string)
    ensures Held(key, MergeAll(buffer, patches).rest)
         == LastHolding(key, [buffer.rest] + Map((p: PartialSpec) => p.rest, patches))
  {
    var rests := Map((p: PartialSpec) => p.rest, patches);
    if patches == [] {
      assert [buffer.rest] + rests == [] + [buffer.rest];
      LastHoldingSnoc(key, [], buffer.rest);
    } else {
      var front, last := patches[..|patches| - 1], patches[|patches| - 1];
      LastFieldStands(buffer, front, key);
      assert patches == front + [last];
      MergeAllLast(buffer, front, last);
      assert MergeAll(buffer, patches).rest == MergeAll(buffer, front).rest + last.rest;
      assert [buffer.rest] + rests == ([buffer.rest] + Map((p: PartialSpec) => p.rest, front)) + [last.rest];
      LastHoldingSnoc(key, [buffer.rest] + Map((p: PartialSpec) => p.rest, front), last.rest);
    }
  }

  lemma ParseOneExactly(handlers: map<Gvk, Handler>, buffer: PartialSpec, res: WatchedResource, world: World)
    ensures ParseOne(handlers, buffer, res, world) ==
      if IsRead(handlers, res, world) then Ok(MergeSpec(buffer, Addition(handlers, res, world)))
      else Err(Cause(handlers, res, world))
  {
  }

  /** Resource i is the first that is not read. */
  predicate FirstUnread(handlers: map<Gvk, Handler>, watched: seq<WatchedResource>, world: World, i: int) {
    && 0 <= i < |watched| && !IsRead(handlers, watched[i], world)
    && forall k :: 0 <= k < i ==> IsRead(handlers, watched[k], world)
  }

  /** Parsing any list of watched resources: it fails exactly if an error is given or some
      resource is not read; the error is the given one, or that of the first such resource;
      and the buffer takes what the other resources add, in order. */
  lemma {:induction false} ParsedExactly(handlers: map<Gvk, Handler>, buffer: PartialSpec, error: Option<string>,
                                         watched: seq<WatchedResource>, world: World)
    ensures
      var (parsed, failed) := ParseResources(handlers, buffer, error, watched, world);
      && (failed.None? <==> error.None? && forall i :: 0 <= i < |watched| ==> IsRead(handlers, watched[i], world))
      && (error.Some? ==> failed == error)
      && (error.None? ==> forall i :: FirstUnread(handlers, watched, world, i) ==>
            failed == Some(Cause(handlers, watched[i], world)))
      && parsed == MergeAll(buffer, Additions(handlers, watched, world))
    decreases |watched|
  {
    if watched == [] {
      assert Additions(handlers, watched, world) == [];
    } else {
      var res, rest := watched[0], watched[1..];
      var p := ParseOne(handlers, buffer, res, world);
      var next := if p.Ok? then p.value else buffer;
      var first := if p.Err? && error.None? then Some(p.error) else error;
      ParseOneExactly(handlers, buffer, res, world);
      ParsedExactly(handlers, next, first, rest, world);
      AdditionsFirst(handlers, buffer, watched, world);
      assert watched == [res] + rest;
      forall i | FirstUnread(handlers, watched, world, i) && error.None?
        ensures ParseResources(handlers, buffer, error, watched, world).1 == Some(Cause(handlers, watched[i], world))
      {
        if i > 0 {
          assert FirstUnread(handlers, rest, world, i - 1);
        }
      }
    }
  }

  lemma AdditionsFirst(handlers: map<Gvk, Handler>, buffer: PartialSpec, watched: seq<WatchedResource>, world: World)
    requires watched != []
    ensures
      var rest := Additions(handlers, watched[1..], world);
      MergeAll(buffer, Additions(handlers, watched, world)) ==
        if IsRead(handlers, watched[0], world)
        then MergeAll(MergeSpec(buffer, Addition(handlers, watched[0], world)), rest) else MergeAll(buffer, rest)
  {
    var f := (res: WatchedResource) => Addition(handlers, res, world);
    var read := (res: WatchedResource) => IsRead(handlers, res, world);
    if read(watched[0]) {
      MapCons(f, Filter(read, watched));
      assert Filter(read, watched)[1..] == Filter(read, watched[1..]);
      MergeAllFirst(buffer, f(watched[0]), Additions(handlers, watched[1..], world));
    }
  }

  /** A buffer whose tier list is empty but not nil, as `tiers: []` in the initial data
      gives, takes no tiers at all. */
  lemma EmptyTiersStayEmpty(buffer: PartialSpec, patch: PartialSpec)
    requires buffer.tiers == Some([])
    ensures MergeSpec(buffer, patch).tiers == Some([])
  {
    MergeIntoNothing(if patch.tiers.None? then [] else patch.tiers.value);
  }
}

/** The sync controller: a publisher gated by a hash in the persisted status
    (pkg/sync/manager/controller.go). */
module SyncController {
  import opened Common
  import opened Watch
  import opened Parser

  const SUCCESS := "success"
  const FAIL := "fail"

  datatype Status = Status(
    lastSyncTime: Option<int>,
    lastSyncStatus: Option<string>,
    lastSyncError: Option<string>,
    syncedData: Option<string>,
    syncedDataHash: Option<string>)

  const NEW_STATUS := Status(None, None, None, None, None)

  /** A ClusterSync; its initial data are a text. */
  datatype ClusterSync = ClusterSync(
    watched: seq<WatchedResource>,
    initialData: string,
    deleting: bool,
    status: Status)

  /** What parsing the watched resources came to. */
  datatype Outcome = Synced(data: string) | Failed(firstError: string) | DiffFailed

  /** A send reaches the queue, is refused with an error, or is reported as failed per
      entry, which the queue client only logs. */
  datatype Enqueue = Sent | Refused | Dropped

  datatype Faults = Faults(enqueue: Enqueue, statusWritten: bool)

  /** The persisted status and the payloads that reached the queue. */
  datatype State = State(status: Status, outbox: seq<string>)

  predicate HasDifferentHash(hash: string -> string, st: Status) {
    || st.syncedDataHash.None?
    || st.syncedData.None?
    || st.syncedDataHash.value != hash(st.syncedData.value)
  }

  predicate ShouldEnqueue(hash: string -> string, st: Status) {
    st.lastSyncStatus == Some(SUCCESS) && HasDifferentHash(hash, st)
  }

  function Step(hash: string -> string, s: State, outcome: Outcome, now: int, f: Faults): State {
    var st := s.status.(lastSyncStatus := Some(SUCCESS), lastSyncError := None);
    match outcome
    case Failed(e) =>
      var failed := st.(lastSyncStatus := Some(FAIL), lastSyncError := Some(e), lastSyncTime := Some(now));
      if f.statusWritten then s.(status := failed) else s
    case DiffFailed => s
    case Synced(d) =>
      var synced := st.(syncedData := Some(d));
      if !ShouldEnqueue(hash, synced) then s
      else
        var recorded := synced.(syncedDataHash := Some(hash(d)), lastSyncTime := Some(now));
        State(if f.statusWritten then recorded else s.status,
              if f.enqueue == Sent then s.outbox + [d] else s.outbox)
  }

  /** What a ClusterSync comes to in the given world; `decode` reads the initial data, if
      it is YAML for a spec, and `diff` is the JSON patch that creates the buffer, if it
      can be encoded. */
  function OutcomeOf(handlers: map<Gvk, Handler>, cs: ClusterSync, world: World,
                     decode: string -> Option<PartialSpec>, diff: PartialSpec -> Option<string>): Outcome {
    var initial := decode(cs.initialData);
    var parsed := ParseResources(handlers,
                                 if initial.Some? then initial.value else EMPTY_SPEC,
                                 if initial.Some? then None else Some("failed to get initial data"),
                                 cs.watched, world);
    if parsed.1.Some? then Failed(parsed.1.value)
    else
      var data := diff(parsed.0);
      if data.None? then DiffFailed else Synced(data.value)
  }

  class Controller {
    const hash: string -> string
    const decode: string -> Option<PartialSpec>
    const diff: PartialSpec -> Option<string>
    const parser: ResourceParser
    var stored: Option<ClusterSync>
    var outbox: seq<string>

    constructor (hash: string -> string, decode: string -> Option<PartialSpec>,
                 diff: PartialSpec -> Option<string>, parser: ResourceParser)
      ensures this.hash == hash && this.decode == decode && this.diff == diff && this.parser == parser
      ensures stored == None && outbox == []
    {
      this.hash, this.decode, this.diff, this.parser := hash, decode, diff, parser;
      this.stored, this.outbox := None, [];
    }

    /** Reconcile moves the persisted status and the queue as Step says, on the outcome
        that the current objects give; a missing or terminating object is left alone. */
    method Reconcile(world: World, getFails: bool, now: int, f: Faults)
      modifies this, parser
      ensures parser.handlers == old(parser.handlers)
      ensures old(stored).None? || getFails || old(stored).value.deleting ==>
        stored == old(stored) && outbox == old(outbox)
      ensures old(stored).Some? && !getFails && !old(stored).value.deleting ==>
        var cs := old(stored).value;
        var next := Step(hash, State(cs.status, old(outbox)),
                         OutcomeOf(old(parser.handlers), cs, world, decode, diff), now, f);
        stored == Some(cs.(status := next.status)) && outbox == next.outbox
    {
      if getFails || stored.None? {
        return;
      }
      var instance := stored.value;
      if instance.deleting {
        return;
      }
      var status := instance.status.(lastSyncStatus := Some(SUCCESS), lastSyncError := None);
      var firstError: Option<string> := None;
      var initial := decode(instance.initialData);
      if initial.None? {
        firstError := Some("failed to get initial data");
      }
      parser.SetBuffer(if initial.Some? then initial.value else EMPTY_SPEC);
      ghost var whole := ParseResources(parser.handlers, parser.buffer, firstError, instance.watched, world);
      for i := 0 to |instance.watched|
        invariant parser.handlers == old(parser.handlers)
        invariant stored == old(stored) && outbox == old(outbox)
        invariant ParseResources(parser.handlers, parser.buffer, firstError, instance.watched[i..], world) == whole
      {
        assert instance.watched[i..][1..] == instance.watched[i + 1..];
        var r := parser.Parse(instance.watched[i], world);
        if r.Err? && firstError.None? {
          firstError := Some(r.error);
        }
      }
      if firstError.Some? {
        status := status.(lastSyncStatus := Some(FAIL), lastSyncError := firstError, lastSyncTime := Some(now));
        if f.statusWritten {
          stored := Some(instance.(status := status));
        }
        return;
      }
      var syncedData := diff(parser.buffer);
      if syncedData.None? {
        return;
      }
      status := status.(syncedData := syncedData);
      if ShouldEnqueue(hash, status) {
        status := status.(syncedDataHash := Some(hash(syncedData.value)), lastSyncTime := Some(now));
        if f.enqueue == Sent {
          outbox := outbox + [syncedData.value];
        }
        if f.statusWritten {
          stored := Some(instance.(status := status));
        }
      }
    }
  }

  /** The outcome of a reconcile: it fails exactly if the initial data cannot be decoded or
      some watched resource is not read, with the first of these errors; otherwise it is the
      encoded merge of the initial data and what all the resources add. */
  lemma OutcomeExactly(handlers: map<Gvk, Handler>, cs: ClusterSync, world: World,
                       decode: string -> Option<PartialSpec>, diff: PartialSpec -> Option<string>)
    ensures
      var outcome := OutcomeOf(handlers, cs, world, decode, diff);
      var initial := decode(cs.initialData);
      && (outcome.Failed? <==>
            initial.None? || exists i :: 0 <= i < |cs.watched| && !IsRead(handlers, cs.watched[i], world))
      && (initial.None? ==> outcome == Failed("failed to get initial data"))
      && (initial.Some? ==> forall i :: FirstUnread(handlers, cs.watched, world, i) ==>
            outcome == Failed(Cause(handlers, cs.watched[i], world)))
      && (!outcome.Failed? ==>
            var data := diff(MergeAll(initial.value, Additions(handlers, cs.watched, world)));
            outcome == if data.Some? then Synced(data.value) else DiffFailed)
  {
    var initial := decode(cs.initialData);
    ParsedExactly(handlers, if initial.Some? then initial.value else EMPTY_SPEC,
                  if initial.Some? then None else Some("failed to get initial data"), cs.watched, world);
  }

  /** What a reconcile leaves in the queue and in the persisted status, field by field. */
  lemma StepExactly(hash: string -> string, s: State, outcome: Outcome, now: int, f: Faults)
    ensures
      var next := Step(hash, s, outcome, now, f);
      match outcome
      case Failed(e) =>
        && next.outbox == s.outbox
        && next.status == (if f.statusWritten
                           then Status(Some(now), Some("fail"), Some(e), s.status.syncedData, s.status.syncedDataHash)
                           else s.status)
      case DiffFailed => next == s
      case Synced(d) =>
        if s.status.syncedDataHash == Some(hash(d)) then next == s
        else
          && next.outbox == (if f.enqueue == Sent then s.outbox + [d] else s.outbox)
          && next.status == (if f.statusWritten
                             then Status(Some(now), Some("success"), None, Some(d), Some(hash(d))) else s.status)
  {
  }

  /** So a watched resource that is not read publishes nothing, and its error is recorded. */
  lemma UnreadResourceFails(hash: string -> string, s: State, handlers: map<Gvk, Handler>, cs: ClusterSync,
                            world: World, decode: string -> Option<PartialSpec>,
                            diff: PartialSpec -> Option<string>, i: int, now: int, f: Faults)
    requires decode(cs.initialData).Some? && FirstUnread(handlers, cs.watched, world, i)
    ensures
      var next := Step(hash, s, OutcomeOf(handlers, cs, world, decode, diff), now, f);
      && next.outbox == s.outbox
      && (f.statusWritten ==> next.status.lastSyncStatus == Some("fail")
                              && next.status.lastSyncError == Some(Cause(handlers, cs.watched[i], world)))
  {
    OutcomeExactly(handlers, cs, world, decode, diff);
  }

  // ---- Runs -------------------------------------------------------------------------------

  datatype Event = Event(outcome: Outcome, now: int, faults: Faults)

  function Exec(hash: string -> string, s: State, events: seq<Event>): State {
    if events == [] then s
    else
      var e := events[|events| - 1];
      Step(hash, Exec(hash, s, events[..|events| - 1]), e.outcome, e.now, e.faults)
  }

  /** A recorded hash comes with recorded data of exactly that hash. */
  predicate Coherent(hash: string -> string, st: Status) {
    st.syncedDataHash.Some? ==>
      st.syncedData.Some? && st.syncedDataHash.value == hash(st.syncedData.value)
  }

  /** Status coherence: it holds in every reachable persisted status, whatever enqueues
      and status writes fail; and a hash once recorded stays recorded. */
  lemma {:induction false} StatusCoherent(hash: string -> string, s: State, events: seq<Event>)
    requires Coherent(hash, s.status)
    ensures Coherent(hash, Exec(hash, s, events).status)
    ensures s.status.syncedDataHash.Some? ==> Exec(hash, s, events).status.syncedDataHash.Some?
  {
    if events != [] {
      StatusCoherent(hash, s, events[..|events| - 1]);
    }
  }

  /** The controller's predicate on update events. */
  predicate UpdatePasses(hash: string -> string, before: ClusterSync, after: ClusterSync) {
    || HasDifferentHash(hash, after.status)
    || before.watched != after.watched
    || before.initialData != after.initialData
  }

  /** A change of the watched resources or of the initial data always passes; any other
      update passes exactly if its recorded hash is not that of its data. */
  lemma SpecChangesPass(hash: string -> string, before: ClusterSync, after: ClusterSync)
    ensures before.watched != after.watched ==> UpdatePasses(hash, before, after)
    ensures before.initialData != after.initialData ==> UpdatePasses(hash, before, after)
    ensures before.watched == after.watched && before.initialData == after.initialData ==>
      (!UpdatePasses(hash, before, after) <==>
         after.status.syncedData.Some? && after.status.syncedDataHash == Some(hash(after.status.syncedData.value)))
  {
  }

  /** No self-triggering: in every reachable state, the update event of the controller's
      own status write passes its predicate exactly as long as no hash is recorded. */
  lemma SelfTriggersIffNoHash(hash: string -> string, cs: ClusterSync, outbox: seq<string>,
                              events: seq<Event>, e: Event)
    requires Coherent(hash, cs.status)
    ensures
      var s := Exec(hash, State(cs.status, outbox), events);
      var after := Step(hash, s, e.outcome, e.now, e.faults).status;
      && (UpdatePasses(hash, cs.(status := s.status), cs.(status := after)) <==> after.syncedDataHash.None?)
      && (s.status.syncedDataHash.Some? ==> !UpdatePasses(hash, cs.(status := s.status), cs.(status := after)))
  {
    StatusCoherent(hash, State(cs.status, outbox), events);
  }

  ghost predicate Injective(hash: string -> string) {
    forall a, b :: hash(a) == hash(b) ==> a == b
  }

  predicate AllSucceed(events: seq<Event>) {
    forall e :: e in events ==> e.faults == Faults(Sent, true)
  }

  /** The data whose hash is recorded. */
  function Recorded(st: Status): Option<string> {
    if st.syncedDataHash.None? then None else st.syncedData
  }

  /** The data of the error-free reconciles, in order. */
  function Datas(events: seq<Event>): seq<string> {
    if events == [] then []
    else
      var last := events[|events| - 1].outcome;
      Datas(events[..|events| - 1]) + (if last.Synced? then [last.data] else [])
  }

  function LastOr(d: seq<string>, previous: Option<string>): Option<string> {
    if d == [] then previous else Some(d[|d| - 1])
  }

  /** The data that differ from the data before them. */
  function Changes(previous: Option<string>, ds: seq<string>): seq<string> {
    if ds == [] then []
    else
      var front, last := ds[..|ds| - 1], ds[|ds| - 1];
      Changes(previous, front) + (if LastOr(front, previous) == Some(last) then [] else [last])
  }

  lemma DatasSnoc(events: seq<Event>, e: Event)
    ensures Datas(events + [e]) == if e.outcome.Synced? then Datas(events) + [e.outcome.data] else Datas(events)
  {
    assert (events + [e])[..|events|] == events;
    assert Datas(events) + [] == Datas(events);
  }

  lemma ChangesSnoc(previous: Option<string>, ds: seq<string>, d: string)
    ensures Changes(previous, ds + [d]) == Changes(previous, ds) + (if LastOr(ds, previous) == Some(d) then [] else [d])
    ensures LastOr(ds + [d], previous) == Some(d)
  {
    assert (ds + [d])[..|ds|] == ds;
  }

  /** Sync publishing: on every run where enqueues and status writes succeed, with any
      failed syncs in between, the messages sent are exactly the changes in the data. */
  lemma {:induction false} PublishesExactlyChanges(hash: string -> string, s: State, events: seq<Event>)
    requires Injective(hash) && Coherent(hash, s.status) && AllSucceed(events)
    ensures Exec(hash, s, events).outbox == s.outbox + Changes(Recorded(s.status), Datas(events))
    ensures Recorded(Exec(hash, s, events).status) == LastOr(Datas(events), Recorded(s.status))
  {
    if events == [] {
      assert Datas(events) == [] && Changes(Recorded(s.status), []) == [];
      assert Exec(hash, s, events) == s && s.outbox + [] == s.outbox;
    } else {
      var front, e := events[..|events| - 1], events[|events| - 1];
      assert events == front + [e];
      assert AllSucceed(front) && e.faults == Faults(Sent, true) by {
        assert e in events && forall x :: x in front ==> x in events;
      }
      PublishesExactlyChanges(hash, s, front);
      StatusCoherent(hash, s, front);
      PublishOne(hash, s, front, e);
    }
  }

  /** One more event: the messages and the recorded data follow the data. */
  lemma PublishOne(hash: string -> string, s: State, front: seq<Event>, e: Event)
    requires Injective(hash) && Coherent(hash, Exec(hash, s, front).status) && e.faults == Faults(Sent, true)
    requires Exec(hash, s, front).outbox == s.outbox + Changes(Recorded(s.status), Datas(front))
    requires Recorded(Exec(hash, s, front).status) == LastOr(Datas(front), Recorded(s.status))
    ensures Exec(hash, s, front + [e]).outbox == s.outbox + Changes(Recorded(s.status), Datas(front + [e]))
    ensures Recorded(Exec(hash, s, front + [e]).status) == LastOr(Datas(front + [e]), Recorded(s.status))
  {
    var mid := Exec(hash, s, front);
    assert (front + [e])[..|front|] == front;
    assert Exec(hash, s, front + [e]) == Step(hash, mid, e.outcome, e.now, e.faults);
    DatasSnoc(front, e);
    if e.outcome.Synced? {
      ChangesSnoc(Recorded(s.status), Datas(front), e.outcome.data);
      PublishStep(hash, mid, e);
    } else {
      FailureStep(hash, mid, e);
    }
  }

  lemma FailureStep(hash: string -> string, s: State, e: Event)
    requires !e.outcome.Synced?
    ensures var next := Step(hash, s, e.outcome, e.now, e.faults);
      next.outbox == s.outbox && Recorded(next.status) == Recorded(s.status)
  {
  }

  lemma PublishStep(hash: string -> string, s: State, e: Event)
    requires Injective(hash) && Coherent(hash, s.status)
    requires e.outcome.Synced? && e.faults == Faults(Sent, true)
    ensures var next := Step(hash, s, e.outcome, e.now, e.faults);
      && next.outbox == s.outbox + (if Recorded(s.status) == Some(e.outcome.data) then [] else [e.outcome.data])
      && Recorded(next.status) == Some(e.outcome.data)
  {
    if s.status.syncedDataHash.Some? && hash(s.status.syncedData.value) == hash(e.outcome.data) {
      assert s.status.syncedData.value == e.outcome.data;
    }
  }

  /** The queue is in step with the status: the recorded data were the last payload. */
  predicate InStep(s: State) {
    Recorded(s.status).Some? ==> LastOr(s.outbox, None) == Recorded(s.status)
  }

  /** So after each error-free reconcile the last payload is the data just computed,
      even with failed syncs in between. */
  lemma LastPayloadIsCurrent(hash: string -> string, s: State, events: seq<Event>)
    requires Injective(hash) && Coherent(hash, s.status) && InStep(s) && AllSucceed(events)
    ensures InStep(Exec(hash, s, events))
    ensures Datas(events) != [] ==>
      LastOr(Exec(hash, s, events).outbox, None) == Some(Datas(events)[|Datas(events)| - 1])
  {
    PublishesExactlyChanges(hash, s, events);
    ChangesEndWithLast(Recorded(s.status), Datas(events));
    LastOfSum(s.outbox, Changes(Recorded(s.status), Datas(events)));
  }

  lemma LastOfSum(a: seq<string>, b: seq<string>)
    ensures LastOr(a + b, None) == LastOr(b, LastOr(a, None))
  {
    if b == [] {
      assert a + b == a;
    }
  }

  /** The changes end with the last datum (or there were none), and no two neighbours
      are equal. */
  lemma {:induction false} ChangesEndWithLast(previous: Option<string>, ds: seq<string>)
    ensures LastOr(Changes(previous, ds), previous) == LastOr(ds, previous)
    ensures var cs := Changes(previous, ds); forall i :: 0 < i < |cs| ==> cs[i - 1] != cs[i]
  {
    if ds != [] {
      ChangesEndWithLast(previous, ds[..|ds| - 1]);
    }
  }

  // ---- What failures cost -------------------------------------------------------------------

  /** While the computed data equal the recorded data nothing is sent, whatever happens.
      A send that failed although the hash was recorded is therefore never made good as
      long as the data stay the same. */
  lemma {:induction false} RecordedDataNotSent(hash: string -> string, s: State, d: string, events: seq<Event>)
    requires Coherent(hash, s.status) && Recorded(s.status) == Some(d)
    requires forall e :: e in events && e.outcome.Synced? ==> e.outcome.data == d
    ensures Exec(hash, s, events).outbox == s.outbox
    ensures Recorded(Exec(hash, s, events).status) == Some(d)
  {
    if events != [] {
      var front := events[..|events| - 1];
      assert forall x :: x in front ==> x in events;
      assert events[|events| - 1] in events;
      RecordedDataNotSent(hash, s, d, front);
      StatusCoherent(hash, s, front);
    }
  }

  lemma FailedSendIsForgotten(hash: string -> string, s: State, d: string, now: int, send: Enqueue, later: seq<Event>)
    requires Injective(hash) && Coherent(hash, s.status) && Recorded(s.status) != Some(d) && send != Sent
    requires forall e :: e in later && e.outcome.Synced? ==> e.outcome.data == d
    ensures Exec(hash, Step(hash, s, Synced(d), now, Faults(send, true)), later).outbox == s.outbox
  {
    var next := Step(hash, s, Synced(d), now, Faults(send, true));
    assert Recorded(next.status) == Some(d);
    RecordedDataNotSent(hash, next, d, later);
  }

  /** After one error-free reconcile the last payload is the computed data exactly when
      the send went through, or was not due (or not new) and the last payload was right. */
  lemma CurrentAfterFaults(hash: string -> string, s: State, d: string, now: int, f: Faults)
    requires Injective(hash) && Coherent(hash, s.status)
    ensures
      var due := Recorded(s.status) != Some(d);
      var out := Step(hash, s, Synced(d), now, f).outbox;
      LastOr(out, None) == Some(d) <==> (due && f.enqueue == Sent) || LastOr(s.outbox, None) == Some(d)
  {
  }

  /** A lost status write shows when the data go back: the new data were sent, the old
      hash stayed, so the old data are not sent again. */
  lemma LostStatusWriteThenRevert(hash: string -> string, s: State, older: string, newer: string, now: int)
    requires Injective(hash) && Coherent(hash, s.status) && Recorded(s.status) == Some(older) && newer != older
    ensures
      var out := Exec(hash, s, [Event(Synced(newer), now, Faults(Sent, false)),
                                Event(Synced(older), now, Faults(Sent, true))]).outbox;
      out == s.outbox + [newer]
  {
    var a, b := Event(Synced(newer), now, Faults(Sent, false)), Event(Synced(older), now, Faults(Sent, true));
    assert [a, b][..1] == [a] && [a][..0] == [];
    assert hash(newer) != hash(older);
    assert Exec(hash, s, []) == s;
    var mid := Exec(hash, s, [a]);
    assert mid == State(s.status, s.outbox + [newer]);
  }

  /** The persisted result of the last sync: after an error-free reconcile with a
      successful write it reads `success` exactly when it did before or the data are
      new. A recovery with unchanged data leaves the old failure in place. */
  lemma RecoveryVisibleIffNewData(hash: string -> string, s: State, d: string, now: int, send: Enqueue)
    requires Injective(hash) && Coherent(hash, s.status)
    ensures Step(hash, s, Synced(d), now, Faults(send, true)).status.lastSyncStatus == Some(SUCCESS)
      <==> s.status.lastSyncStatus == Some(SUCCESS) || Recorded(s.status) != Some(d)
  {
  }
}
