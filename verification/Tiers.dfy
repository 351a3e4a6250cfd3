/** Tiers of a cluster: the join of machine pools and EKS configs through the merge of
    partial specs (pkg/api/registry/v1/merge.go, pkg/sync/parser/handler). */
module Tiers {
  import opened Common

  datatype Tier = Tier(
    name: string,
    instanceType: string,
    containerRuntime: string,
    minCapacity: int,
    maxCapacity: int,
    labels: map<string, string>,
    taints: seq<string>,
    enableKataSupport: bool,
    kernelParameters: map<string, string>)

  const EMPTY_TIER := Tier("", "", "", 0, 0, map[], [], false, map[])

  function Text(dst: string, src: string): string {
    if src != "" then src else dst
  }

  function Number(dst: int, src: int): int {
    if src != 0 then src else dst
  }

  /** mergo.Merge with the options of mergeTiers: a non-zero source field wins, maps are
      united in favour of the source, slices are appended. */
  function MergeTier(dst: Tier, src: Tier): Tier {
    Tier(Text(dst.name, src.name),
         Text(dst.instanceType, src.instanceType),
         Text(dst.containerRuntime, src.containerRuntime),
         Number(dst.minCapacity, src.minCapacity),
         Number(dst.maxCapacity, src.maxCapacity),
         dst.labels + src.labels,
         dst.taints + src.taints,
         dst.enableKataSupport || src.enableKataSupport,
         dst.kernelParameters + src.kernelParameters)
  }

  /** Merging two lists one after the other is merging them end to end. */
  lemma {:induction false} MergeTiersAppend(dsts: seq<Tier>, a: seq<Tier>, b: seq<Tier>)
    ensures MergeTiers(dsts, a + b) == MergeTiers(MergeTiers(dsts, a), b)
  {
    if b == [] {
      assert a + b == a;
    } else {
      assert (a + b)[..|a + b| - 1] == a + b[..|b| - 1];
      MergeTiersAppend(dsts, a, b[..|b| - 1]);
    }
  }

  /** The index of the first tier of that name, or -1. */
  function FirstNamed(tiers: seq<Tier>, name: string): (r: int)
    ensures -1 <= r < |tiers|
    ensures r >= 0 ==> tiers[r].name == name && forall i :: 0 <= i < r ==> tiers[i].name != name
    ensures r < 0 ==> forall i :: 0 <= i < |tiers| ==> tiers[i].name != name
  {
    if tiers == [] then -1
    else if tiers[0].name == name then 0
    else
      var r := FirstNamed(tiers[1..], name);
      if r < 0 then -1 else r + 1
  }

  /** The same search as a loop. */
  method IndexOfName(tiers: seq<Tier>, name: string) returns (r: int)
    ensures r == FirstNamed(tiers, name)
  {
    for i := 0 to |tiers|
      invariant forall k :: 0 <= k < i ==> tiers[k].name != name
    {
      if tiers[i].name == name {
        return i;
      }
    }
    return -1;
  }

  function MergeOne(dsts: seq<Tier>, src: Tier): seq<Tier> {
    var di := FirstNamed(dsts, src.name);
    if di < 0 then dsts else dsts[di := MergeTier(dsts[di], src)]
  }

  function MergeTiers(dsts: seq<Tier>, srcs: seq<Tier>): seq<Tier> {
    if srcs == [] then dsts
    else MergeOne(MergeTiers(dsts, srcs[..|srcs| - 1]), srcs[|srcs| - 1])
  }

  /** mergeTiers: every source tier is merged, in place, into the first existing tier
      of its name, or dropped. */
  method MergeTiersInPlace(dsts: array<Tier>, srcs: seq<Tier>)
    modifies dsts
    ensures dsts[..] == MergeTiers(old(dsts[..]), srcs)
  {
    for si := 0 to |srcs|
      invariant dsts[..] == MergeTiers(old(dsts[..]), srcs[..si])
    {
      var s := srcs[si];
      assert srcs[..si + 1][..si] == srcs[..si];
      ghost var before := dsts[..];
      var di := -1;
      var i := 0;
      while i < dsts.Length && di < 0
        invariant 0 <= i <= dsts.Length && dsts[..] == before
        invariant di < 0 ==> di == -1 && forall k :: 0 <= k < i ==> dsts[k].name != s.name
        invariant di >= 0 ==> di < dsts.Length && di == FirstNamed(before, s.name)
      {
        if dsts[i].name == s.name {
          di := i;
        }
        i := i + 1;
      }
      if di >= 0 {
        dsts[di] := MergeTier(dsts[di], s);
      }
      assert dsts[..] == MergeOne(before, s);
    }
    assert srcs[..|srcs|] == srcs;
  }

  // ---- What the merge does, tier by tier -------------------------------------------

  function OfName(tiers: seq<Tier>, name: string): seq<Tier> {
    Filter((t: Tier) => t.name == name, tiers)
  }

  function MergeInto(dst: Tier, srcs: seq<Tier>): Tier {
    if srcs == [] then dst else MergeTier(MergeInto(dst, srcs[..|srcs| - 1]), srcs[|srcs| - 1])
  }

  /** Position i is the first with its name. */
  predicate FirstOfName(tiers: seq<Tier>, i: nat)
    requires i < |tiers|
  {
    forall k :: 0 <= k < i ==> tiers[k].name != tiers[i].name
  }

  /** mergeTiers, said position by position: it keeps the number, order and names of
      the existing tiers, drops sources without a namesake, and gives to the first tier
      of a name all sources of that name, in order, and nothing to the others. */
  lemma {:induction false} MergeTiersAt(dsts: seq<Tier>, srcs: seq<Tier>, i: nat)
    requires i < |dsts|
    ensures |MergeTiers(dsts, srcs)| == |dsts|
    ensures forall k :: 0 <= k < |dsts| ==> MergeTiers(dsts, srcs)[k].name == dsts[k].name
    ensures MergeTiers(dsts, srcs)[i] ==
      if FirstOfName(dsts, i) then MergeInto(dsts[i], OfName(srcs, dsts[i].name)) else dsts[i]
  {
    if srcs != [] {
      var front, last := srcs[..|srcs| - 1], srcs[|srcs| - 1];
      MergeTiersAt(dsts, front, i);
      var mid := MergeTiers(dsts, front);
      OfNameSnoc(front, last, dsts[i].name);
      assert srcs == front + [last];
      var di := FirstNamed(mid, last.name);
      if FirstOfName(dsts, i) && last.name == dsts[i].name {
        assert di == i;
        var sel := OfName(front, dsts[i].name);
        assert (sel + [last])[..|sel|] == sel;
      } else {
        assert di != i;
      }
    }
  }

  lemma OfNameSnoc(tiers: seq<Tier>, t: Tier, name: string)
    ensures OfName(tiers + [t], name) == if t.name == name then OfName(tiers, name) + [t] else OfName(tiers, name)
  {
    FilterAppend((t: Tier) => t.name == name, tiers, [t]);
    assert [t][1..] == [];
  }

  // ---- The two handlers ---------------------------------------------------------------

  /** The machine-pool loop: replace the tier of that name, or append. */
  function UpsertPool(tiers: seq<Tier>, tier: Tier): seq<Tier> {
    var k := FirstNamed(tiers, tier.name);
    if k >= 0 then tiers[k := tier] else tiers + [tier]
  }

  function PoolTiers(pools: seq<Tier>): seq<Tier> {
    if pools == [] then [] else UpsertPool(PoolTiers(pools[..|pools| - 1]), pools[|pools| - 1])
  }

  /** An EKS config gives a name and a container runtime. */
  datatype EksConfig = EksConfig(name: string, runtime: string)

  /** The EKS-config loop: set the runtime of the tier of that name, or append one. */
  function UpsertRuntime(tiers: seq<Tier>, c: EksConfig): seq<Tier> {
    var k := FirstNamed(tiers, c.name);
    if k >= 0 then tiers[k := tiers[k].(containerRuntime := c.runtime)]
    else tiers + [EMPTY_TIER.(name := c.name, containerRuntime := c.runtime)]
  }

  function EksTiers(configs: seq<EksConfig>): seq<Tier> {
    if configs == [] then [] else UpsertRuntime(EksTiers(configs[..|configs| - 1]), configs[|configs| - 1])
  }

  /** The fields of a machine pool that make a tier; the runtime is not among them. */
  datatype Pool = Pool(
    name: string,
    instanceType: string,
    minSize: int,
    maxSize: int,
    labels: map<string, string>,
    taints: seq<string>)

  function PoolTier(p: Pool): Tier {
    EMPTY_TIER.(name := p.name, instanceType := p.instanceType, minCapacity := p.minSize, maxCapacity := p.maxSize,
                labels := p.labels, taints := p.taints)
  }

  function TierOr(o: Option<Pool>): Tier {
    if o.Some? then PoolTier(o.value) else EMPTY_TIER
  }

  /** The tier has exactly the fields of the pool, the runtime, and nothing else. */
  predicate TierIs(t: Tier, p: Pool, runtime: string) {
    && t.name == p.name && t.instanceType == p.instanceType
    && t.minCapacity == p.minSize && t.maxCapacity == p.maxSize
    && t.labels == p.labels && t.taints == p.taints
    && t.containerRuntime == runtime
    && !t.enableKataSupport && t.kernelParameters == map[]
  }

  function PoolName(o: Option<Pool>): string {
    if o.Some? then o.value.name else ""
  }

  /** The last readable pool of that name. */
  function LastPoolNamed(objects: seq<Option<Pool>>, name: string): Option<Pool> {
    if objects == [] then None
    else
      var last := objects[|objects| - 1];
      if last.Some? && last.value.name == name then last else LastPoolNamed(objects[..|objects| - 1], name)
  }

  lemma {:induction false} LastPoolFields(objects: seq<Option<Pool>>, name: string)
    requires None !in objects && name in Names(Map(TierOr, objects))
    ensures LastPoolNamed(objects, name).Some?
    ensures TierIs(LastPool(Map(TierOr, objects), name), LastPoolNamed(objects, name).value, "")
    ensures LastPoolNamed(objects, name).value.name == name
  {
    var tiers := Map(TierOr, objects);
    var front, last := objects[..|objects| - 1], objects[|objects| - 1];
    assert tiers[..|objects| - 1] == Map(TierOr, front);
    assert last in objects;
    if last.value.name != name {
      var i :| 0 <= i < |objects| && Names(tiers)[i] == name;
      assert Names(Map(TierOr, front))[i] == name;
      assert None !in front;
      LastPoolFields(front, name);
    }
  }

  lemma {:induction false} NoPoolNamed(objects: seq<Option<Pool>>, name: string)
    requires name !in Names(Map(TierOr, objects))
    ensures LastPoolNamed(objects, name).None?
  {
    if objects != [] {
      var tiers, front := Map(TierOr, objects), objects[..|objects| - 1];
      assert Names(tiers)[|objects| - 1] == tiers[|objects| - 1].name;
      assert Names(Map(TierOr, front)) == Names(tiers)[..|objects| - 1];
      NoPoolNamed(front, name);
    }
  }

  /** The fields that the pools give to a name: those of the last such pool, or none. */
  function PoolNamed(objects: seq<Option<Pool>>, name: string): Pool {
    var p := LastPoolNamed(objects, name);
    if p.Some? then p.value else Pool(name, "", 0, 0, map[], [])
  }

  /** The runtime in the last object of that name; empty if there is none. */
  function LastRuntimeNamed(objects: seq<(string, Option<string>)>, name: string): string {
    if objects == [] then ""
    else
      var (n, runtime) := objects[|objects| - 1];
      if n == name then (if runtime.Some? then runtime.value else "")
      else LastRuntimeNamed(objects[..|objects| - 1], name)
  }

  lemma {:induction false} LastRuntimeFields(objects: seq<(string, Option<string>)>, name: string)
    ensures LastRuntime(Map(ToConfig, objects), name) == LastRuntimeNamed(objects, name)
    ensures ConfigNames(Map(ToConfig, objects)) == Map((o: (string, Option<string>)) => o.0, objects)
  {
    if objects != [] {
      var front := objects[..|objects| - 1];
      assert Map(ToConfig, objects)[..|objects| - 1] == Map(ToConfig, front);
      LastRuntimeFields(front, name);
    }
  }

  /** One tier per config name, in first-seen order, with the last runtime and nothing else. */
  lemma EksTiersFields(objects: seq<(string, Option<string>)>)
    ensures
      var tiers := EksTiers(Map(ToConfig, objects));
      && Names(tiers) == FirstSeen(Map((o: (string, Option<string>)) => o.0, objects))
      && forall i :: 0 <= i < |tiers| ==>
           TierIs(tiers[i], Pool(tiers[i].name, "", 0, 0, map[], []), LastRuntimeNamed(objects, tiers[i].name))
  {
    var configs := Map(ToConfig, objects);
    var tiers := EksTiers(configs);
    EksTiersArePools(configs);
    PoolTiersNames(RuntimeTiers(configs));
    assert Names(RuntimeTiers(configs)) == ConfigNames(configs);
    LastRuntimeFields(objects, "");
    forall i | 0 <= i < |tiers|
      ensures TierIs(tiers[i], Pool(tiers[i].name, "", 0, 0, map[], []), LastRuntimeNamed(objects, tiers[i].name))
    {
      EksTiersLast(configs, i);
      LastRuntimeFields(objects, tiers[i].name);
    }
  }

  /** One tier per pool name, in first-seen order, with the fields of the last such pool. */
  lemma PoolTiersFields(objects: seq<Option<Pool>>)
    requires None !in objects
    ensures
      var tiers := PoolTiers(Map(TierOr, objects));
      && Names(tiers) == FirstSeen(Map(PoolName, objects))
      && forall i :: 0 <= i < |tiers| ==>
           var p := LastPoolNamed(objects, tiers[i].name);
           p.Some? && TierIs(tiers[i], p.value, "")
  {
    var pools := Map(TierOr, objects);
    var tiers := PoolTiers(pools);
    PoolTiersNames(pools);
    FirstSeenMembers(Names(pools));
    assert Names(pools) == Map(PoolName, objects) by {
      forall i | 0 <= i < |objects| ensures Names(pools)[i] == PoolName(objects[i]) {
      }
    }
    forall i | 0 <= i < |tiers|
      ensures
        var p := LastPoolNamed(objects, tiers[i].name);
        p.Some? && TierIs(tiers[i], p.value, "")
    {
      assert Names(tiers)[i] == tiers[i].name;
      PoolTiersLast(pools, tiers[i]);
      LastPoolFields(objects, tiers[i].name);
    }
  }

  /** The machine-pool handler; a pool whose fields cannot be read is `None`. */
  method HandlePools(objects: seq<Option<Pool>>) returns (r: Result<seq<Tier>, string>)
    ensures r.Ok? <==> None !in objects
    ensures r.Ok? ==> r.value == PoolTiers(Map(TierOr, objects))
    ensures r.Ok? ==> Names(r.value) == FirstSeen(Map(PoolName, objects))
    ensures r.Ok? ==> forall i :: 0 <= i < |r.value| ==>
      var p := LastPoolNamed(objects, r.value[i].name);
      p.Some? && TierIs(r.value[i], p.value, "")
  {
    var tiers: seq<Tier> := [];
    ghost var pools := Map(TierOr, objects);
    for i := 0 to |objects|
      invariant None !in objects[..i]
      invariant tiers == PoolTiers(pools[..i])
    {
      if objects[i].None? {
        return Err("field not found");
      }
      var tier := PoolTier(objects[i].value);
      assert pools[..i + 1][..i] == pools[..i];
      var k := IndexOfName(tiers, tier.name);
      if k > -1 {
        tiers := tiers[k := tier];
      } else {
        tiers := tiers + [tier];
      }
    }
    assert pools[..|objects|] == pools && objects[..|objects|] == objects;
    PoolTiersFields(objects);
    return Ok(tiers);
  }

  lemma EksTiersSnoc(configs: seq<EksConfig>, i: nat)
    requires i < |configs|
    ensures EksTiers(configs[..i + 1]) == UpsertRuntime(EksTiers(configs[..i]), configs[i])
  {
    assert configs[..i + 1][..i] == configs[..i];
  }

  /** The EKS-config handler; `None` is an object without a readable runtime. */
  method HandleEksConfigs(objects: seq<(string, Option<string>)>) returns (r: Result<seq<Tier>, string>)
    ensures r.Ok? <==> forall o :: o in objects ==> o.1.Some?
    ensures r.Ok? ==> r.value == EksTiers(Map(ToConfig, objects))
    ensures r.Ok? ==> Names(r.value) == FirstSeen(Map((o: (string, Option<string>)) => o.0, objects))
    ensures r.Ok? ==> forall i :: 0 <= i < |r.value| ==>
      TierIs(r.value[i], Pool(r.value[i].name, "", 0, 0, map[], []), LastRuntimeNamed(objects, r.value[i].name))
  {
    var tiers: seq<Tier> := [];
    ghost var configs := Map(ToConfig, objects);
    for i := 0 to |objects|
      invariant forall k :: 0 <= k < i ==> objects[k].1.Some?
      invariant tiers == EksTiers(configs[..i])
    {
      var (name, runtime) := objects[i];
      if runtime.None? {
        assert objects[i] in objects;
        return Err("field not found");
      }
      EksTiersSnoc(configs, i);
      var k := IndexOfName(tiers, name);
      if k > -1 {
        tiers := tiers[k := tiers[k].(containerRuntime := runtime.value)];
      } else {
        tiers := tiers + [EMPTY_TIER.(name := name, containerRuntime := runtime.value)];
      }
    }
    assert configs[..|objects|] == configs;
    EksTiersFields(objects);
    return Ok(tiers);
  }

  function ToConfig(o: (string, Option<string>)): EksConfig {
    EksConfig(o.0, if o.1.Some? then o.1.value else "")
  }

  // ---- The join --------------------------------------------------------------------------

  function Names(tiers: seq<Tier>): seq<string> {
    Map((t: Tier) => t.name, tiers)
  }

  /** The names in the order of their first appearance. */
  function FirstSeen(names: seq<string>): seq<string> {
    if names == [] then []
    else
      var seen, last := FirstSeen(names[..|names| - 1]), names[|names| - 1];
      if last in seen then seen else seen + [last]
  }

  predicate DistinctNames(tiers: seq<Tier>) {
    forall i, j :: 0 <= i < j < |tiers| ==> tiers[i].name != tiers[j].name
  }

  /** The last pool of that name. */
  function LastPool(pools: seq<Tier>, name: string): Tier {
    if pools == [] then EMPTY_TIER
    else if pools[|pools| - 1].name == name then pools[|pools| - 1]
    else LastPool(pools[..|pools| - 1], name)
  }

  /** The runtime of the last EKS config of that name; empty if there is none. */
  function LastRuntime(configs: seq<EksConfig>, name: string): string {
    if configs == [] then ""
    else if configs[|configs| - 1].name == name then configs[|configs| - 1].runtime
    else LastRuntime(configs[..|configs| - 1], name)
  }

  lemma NamedIff(tiers: seq<Tier>, name: string)
    ensures name in Names(tiers) <==> FirstNamed(tiers, name) >= 0
  {
    var r := FirstNamed(tiers, name);
    if r >= 0 {
      assert Names(tiers)[r] == name;
    }
  }

  /** An update of the tier at the place of its name, or at the end, keeps names distinct. */
  lemma UpsertNames(tiers: seq<Tier>, t: Tier)
    requires DistinctNames(tiers)
    ensures DistinctNames(UpsertPool(tiers, t))
    ensures Names(UpsertPool(tiers, t)) == if t.name in Names(tiers) then Names(tiers) else Names(tiers) + [t.name]
  {
    NamedIff(tiers, t.name);
  }

  lemma {:induction false} PoolTiersNames(pools: seq<Tier>)
    ensures DistinctNames(PoolTiers(pools))
    ensures Names(PoolTiers(pools)) == FirstSeen(Names(pools))
  {
    if pools != [] {
      var front, last := pools[..|pools| - 1], pools[|pools| - 1];
      PoolTiersNames(front);
      UpsertNames(PoolTiers(front), last);
      FirstSeenSnoc(Names(front), last.name);
      assert Names(pools) == Names(front) + [last.name];
    }
  }

  lemma FirstSeenSnoc(names: seq<string>, n: string)
    ensures FirstSeen(names + [n]) ==
      if n in FirstSeen(names) then FirstSeen(names) else FirstSeen(names) + [n]
  {
    assert (names + [n])[..|names|] == names;
  }

  lemma {:induction false} PoolTiersLast(pools: seq<Tier>, t: Tier)
    requires t in PoolTiers(pools)
    ensures t == LastPool(pools, t.name)
  {
    var front, last := pools[..|pools| - 1], pools[|pools| - 1];
    PoolTiersNames(front);
    if t.name != last.name {
      assert t in PoolTiers(front);
      PoolTiersLast(front, t);
    } else {
      var k := FirstNamed(PoolTiers(front), last.name);
      assert t == last;
    }
  }

  /** The EKS loop updates and appends tiers of the same shape as the pool loop. */
  lemma RuntimeUpsert(tiers: seq<Tier>, c: EksConfig)
    requires forall t :: t in tiers ==> t == RuntimeTier(t.name, t.containerRuntime)
    ensures UpsertRuntime(tiers, c) == UpsertPool(tiers, RuntimeTier(c.name, c.runtime))
  {
    var k := FirstNamed(tiers, c.name);
    if k >= 0 {
      assert tiers[k] in tiers;
    }
  }

  function RuntimeTier(name: string, runtime: string): Tier {
    EMPTY_TIER.(name := name, containerRuntime := runtime)
  }

  function RuntimeTiers(configs: seq<EksConfig>): seq<Tier> {
    Map((c: EksConfig) => RuntimeTier(c.name, c.runtime), configs)
  }

  lemma {:induction false} EksTiersArePools(configs: seq<EksConfig>)
    ensures EksTiers(configs) == PoolTiers(RuntimeTiers(configs))
    ensures forall t :: t in EksTiers(configs) ==> t == RuntimeTier(t.name, t.containerRuntime)
  {
    if configs != [] {
      var front, last := configs[..|configs| - 1], configs[|configs| - 1];
      EksTiersArePools(front);
      RuntimeUpsert(EksTiers(front), last);
      assert RuntimeTiers(configs)[..|configs| - 1] == RuntimeTiers(front);
    }
  }

  predicate Configured(configs: seq<EksConfig>, name: string) {
    exists i :: 0 <= i < |configs| && configs[i].name == name
  }

  lemma {:induction false} LastRuntimePool(configs: seq<EksConfig>, name: string)
    requires Configured(configs, name)
    ensures LastPool(RuntimeTiers(configs), name) == RuntimeTier(name, LastRuntime(configs, name))
  {
    var front, last := configs[..|configs| - 1], configs[|configs| - 1];
    assert RuntimeTiers(configs)[..|configs| - 1] == RuntimeTiers(front);
    if last.name != name {
      var i :| 0 <= i < |configs| && configs[i].name == name;
      assert front[i].name == name;
      LastRuntimePool(front, name);
    }
  }

  lemma {:induction false} FirstSeenMembers(names: seq<string>)
    ensures forall n :: n in FirstSeen(names) <==> n in names
  {
    if names != [] {
      FirstSeenMembers(names[..|names| - 1]);
      assert names == names[..|names| - 1] + [names[|names| - 1]];
    }
  }

  /** The EKS tiers have distinct names, namely those of the configs. */
  lemma EksTiersNames(configs: seq<EksConfig>, name: string)
    ensures DistinctNames(EksTiers(configs))
    ensures name in Names(EksTiers(configs)) <==> Configured(configs, name)
  {
    var pools := RuntimeTiers(configs);
    EksTiersArePools(configs);
    PoolTiersNames(pools);
    FirstSeenMembers(Names(pools));
    if Configured(configs, name) {
      var i :| 0 <= i < |configs| && configs[i].name == name;
      assert Names(pools)[i] == name;
    }
    if name in Names(pools) {
      var i :| 0 <= i < |pools| && Names(pools)[i] == name;
      assert configs[i].name == name;
    }
  }

  /** Each EKS tier has the last runtime of its name. */
  lemma EksTiersLast(configs: seq<EksConfig>, k: nat)
    requires k < |EksTiers(configs)|
    ensures var t := EksTiers(configs)[k]; t == RuntimeTier(t.name, LastRuntime(configs, t.name))
  {
    var tiers := EksTiers(configs);
    var t := tiers[k];
    assert Names(tiers)[k] == t.name;
    EksTiersNames(configs, t.name);
    EksTiersArePools(configs);
    PoolTiersLast(RuntimeTiers(configs), t);
    LastRuntimePool(configs, t.name);
  }

  /** With distinct names, at most one tier has a given name. */
  lemma {:induction false} OfNameSingle(tiers: seq<Tier>, name: string)
    requires DistinctNames(tiers)
    ensures OfName(tiers, name) ==
      if FirstNamed(tiers, name) < 0 then [] else [tiers[FirstNamed(tiers, name)]]
  {
    if tiers != [] {
      OfNameSingle(tiers[1..], name);
      if tiers[0].name == name {
        assert FirstNamed(tiers[1..], name) < 0;
      }
    }
  }

  lemma {:induction false} NoRuntime(configs: seq<EksConfig>, name: string)
    requires !Configured(configs, name)
    ensures LastRuntime(configs, name) == ""
  {
    if configs != [] {
      NoRuntime(configs[..|configs| - 1], name);
    }
  }

  /** Pools as the handler builds them: without a runtime. */
  predicate FromPools(pools: seq<Tier>) {
    forall p :: p in pools ==> p.containerRuntime == ""
  }

  lemma {:induction false} LastPoolFromPools(pools: seq<Tier>, name: string)
    requires FromPools(pools)
    ensures LastPool(pools, name).containerRuntime == ""
  {
    if pools != [] {
      LastPoolFromPools(pools[..|pools| - 1], name);
    }
  }

  /** The tier join: merging the EKS tiers into the pool tiers yields one tier per pool
      name in first-seen order, holding the last pool of that name with the runtime of
      the last EKS config of that name; EKS configs without a pool leave nothing. */
  lemma TierJoin(pools: seq<Tier>, configs: seq<EksConfig>)
    requires FromPools(pools)
    ensures var joined := MergeTiers(PoolTiers(pools), EksTiers(configs));
      && Names(joined) == FirstSeen(Names(pools))
      && forall i :: 0 <= i < |joined| ==>
           var name := joined[i].name;
           joined[i] == LastPool(pools, name).(containerRuntime := LastRuntime(configs, name))
  {
    var dsts, srcs := PoolTiers(pools), EksTiers(configs);
    var joined := MergeTiers(dsts, srcs);
    PoolTiersNames(pools);
    MergedNames(dsts, srcs);
    forall i | 0 <= i < |joined|
      ensures joined[i] == LastPool(pools, joined[i].name).(containerRuntime := LastRuntime(configs, joined[i].name))
    {
      JoinAt(pools, configs, i);
    }
  }

  lemma JoinAt(pools: seq<Tier>, configs: seq<EksConfig>, i: nat)
    requires FromPools(pools) && i < |PoolTiers(pools)| == |MergeTiers(PoolTiers(pools), EksTiers(configs))|
    ensures var t := MergeTiers(PoolTiers(pools), EksTiers(configs))[i];
      t == LastPool(pools, t.name).(containerRuntime := LastRuntime(configs, t.name))
  {
    var dsts, srcs := PoolTiers(pools), EksTiers(configs);
    MergeTiersAt(dsts, srcs, i);
    PoolTiersNames(pools);
    assert FirstOfName(dsts, i);
    PoolTiersLast(pools, dsts[i]);
    JoinOne(pools, dsts[i], configs);
  }

  lemma MergedNames(dsts: seq<Tier>, srcs: seq<Tier>)
    ensures |MergeTiers(dsts, srcs)| == |dsts|
    ensures Names(MergeTiers(dsts, srcs)) == Names(dsts)
  {
    if dsts == [] {
      MergeIntoNothing(srcs);
    } else {
      MergeTiersAt(dsts, srcs, 0);
    }
  }

  lemma {:induction false} MergeIntoNothing(srcs: seq<Tier>)
    ensures MergeTiers([], srcs) == []
  {
    if srcs != [] {
      MergeIntoNothing(srcs[..|srcs| - 1]);
    }
  }

  lemma JoinOne(pools: seq<Tier>, pool: Tier, configs: seq<EksConfig>)
    requires FromPools(pools) && pool == LastPool(pools, pool.name)
    ensures MergeInto(pool, OfName(EksTiers(configs), pool.name))
         == pool.(containerRuntime := LastRuntime(configs, pool.name))
  {
    var srcs := EksTiers(configs);
    EksTiersNames(configs, pool.name);
    OfNameSingle(srcs, pool.name);
    NamedIff(srcs, pool.name);
    var k := FirstNamed(srcs, pool.name);
    if k < 0 {
      NoRuntime(configs, pool.name);
    } else {
      EksTiersLast(configs, k);
    }
    LastPoolFromPools(pools, pool.name);
    if k >= 0 {
      MergeRuntime(pool, srcs[k]);
    }
  }

  lemma MergeRuntime(pool: Tier, src: Tier)
    requires pool.containerRuntime == "" && src == RuntimeTier(pool.name, src.containerRuntime)
    ensures MergeInto(pool, [src]) == pool.(containerRuntime := src.containerRuntime)
  {
    assert [src][..0] == [];
    assert pool.labels + map[] == pool.labels && pool.kernelParameters + map[] == pool.kernelParameters;
    assert pool.taints + [] == pool.taints;
  }

  // ---- The join in the other order ------------------------------------------------------------

  function ConfigNames(configs: seq<EksConfig>): seq<string> {
    Map((c: EksConfig) => c.name, configs)
  }

  /** Merging the pool tiers into the EKS tiers yields one tier per config name in
      first-seen order: the last runtime of that name, with the last pool of that name if
      there is one. Pools without a config leave nothing. */
  lemma ReverseJoin(pools: seq<Tier>, configs: seq<EksConfig>)
    requires FromPools(pools)
    ensures var joined := MergeTiers(EksTiers(configs), PoolTiers(pools));
      && Names(joined) == Names(EksTiers(configs)) == FirstSeen(ConfigNames(configs))
      && forall i :: 0 <= i < |joined| ==>
           var name := joined[i].name;
           joined[i] == (if name in Names(pools) then LastPool(pools, name) else RuntimeTier(name, ""))
                        .(containerRuntime := LastRuntime(configs, name))
  {
    var joined := MergeTiers(EksTiers(configs), PoolTiers(pools));
    MergedNames(EksTiers(configs), PoolTiers(pools));
    EksTiersArePools(configs);
    PoolTiersNames(RuntimeTiers(configs));
    assert Names(RuntimeTiers(configs)) == ConfigNames(configs);
    forall i | 0 <= i < |joined|
      ensures joined[i] ==
        (if joined[i].name in Names(pools) then LastPool(pools, joined[i].name) else RuntimeTier(joined[i].name, ""))
        .(containerRuntime := LastRuntime(configs, joined[i].name))
    {
      ReverseJoinAt(pools, configs, i);
    }
  }

  /** All pools have a tier among the EKS tiers if and only if each has its config. */
  lemma PoolsSurvive(pools: seq<Tier>, configs: seq<EksConfig>)
    ensures (forall p :: p in pools ==> p.name in Names(EksTiers(configs)))
       <==> forall p :: p in pools ==> Configured(configs, p.name)
  {
    forall p | p in pools ensures p.name in Names(EksTiers(configs)) <==> Configured(configs, p.name) {
      EksTiersNames(configs, p.name);
    }
  }

  lemma ReverseJoinAt(pools: seq<Tier>, configs: seq<EksConfig>, i: nat)
    requires FromPools(pools) && i < |EksTiers(configs)| == |MergeTiers(EksTiers(configs), PoolTiers(pools))|
    ensures var t := MergeTiers(EksTiers(configs), PoolTiers(pools))[i];
      t == (if t.name in Names(pools) then LastPool(pools, t.name) else RuntimeTier(t.name, ""))
           .(containerRuntime := LastRuntime(configs, t.name))
  {
    var dsts, srcs := EksTiers(configs), PoolTiers(pools);
    var name := dsts[i].name;
    MergeTiersAt(dsts, srcs, i);
    EksTiersNames(configs, name);
    assert FirstOfName(dsts, i);
    EksTiersLast(configs, i);
    PoolTiersNames(pools);
    FirstSeenMembers(Names(pools));
    OfNameSingle(srcs, name);
    NamedIff(srcs, name);
    var k := FirstNamed(srcs, name);
    if k >= 0 {
      PoolTiersLast(pools, srcs[k]);
      LastPoolFromPools(pools, name);
      MergePool(name, LastRuntime(configs, name), srcs[k]);
    }
  }

  lemma MergePool(name: string, runtime: string, pool: Tier)
    requires pool.name == name && pool.containerRuntime == ""
    ensures MergeInto(RuntimeTier(name, runtime), [pool]) == pool.(containerRuntime := runtime)
  {
    assert [pool][..0] == [];
    assert map[] + pool.labels == pool.labels && map[] + pool.kernelParameters == pool.kernelParameters;
    assert [] + pool.taints == pool.taints;
  }

  /** Both joins in the terms of the objects read: the tier of a name has the fields of the
      last pool object of that name and the runtime of the last config object of that name. */
  lemma JoinedFields(pools: seq<Option<Pool>>, configs: seq<(string, Option<string>)>, t: Tier)
    requires None !in pools
    requires t == (if t.name in Names(Map(TierOr, pools)) then LastPool(Map(TierOr, pools), t.name)
                   else RuntimeTier(t.name, "")).(containerRuntime := LastRuntime(Map(ToConfig, configs), t.name))
    ensures TierIs(t, PoolNamed(pools, t.name), LastRuntimeNamed(configs, t.name))
  {
    LastRuntimeFields(configs, t.name);
    if t.name in Names(Map(TierOr, pools)) {
      LastPoolFields(pools, t.name);
    } else {
      NoPoolNamed(pools, t.name);
    }
  }

  // ---- Whose value wins ---------------------------------------------------------------------

  function LastNonZero<T(==)>(zero: T, values: seq<T>): T {
    if values == [] then zero
    else if values[|values| - 1] != zero then values[|values| - 1]
    else LastNonZero(zero, values[..|values| - 1])
  }

  /** The value of the key in the last map that has it. */
  function LastHolding(key: string, maps: seq<map<string, string>>): Option<string> {
    if maps == [] then None
    else if key in maps[|maps| - 1] then Some(maps[|maps| - 1][key])
    else LastHolding(key, maps[..|maps| - 1])
  }

  function Held(key: string, m: map<string, string>): Option<string> {
    if key in m then Some(m[key]) else None
  }

  lemma LastNonZeroSnoc<T>(zero: T, values: seq<T>, v: T)
    ensures LastNonZero(zero, values + [v]) == if v != zero then v else LastNonZero(zero, values)
  {
    assert (values + [v])[..|values|] == values;
  }

  lemma LastHoldingSnoc(key: string, maps: seq<map<string, string>>, m: map<string, string>)
    ensures LastHolding(key, maps + [m]) == if key in m then Some(m[key]) else LastHolding(key, maps)
  {
    assert (maps + [m])[..|maps|] == maps;
  }

  /** A tier and the sources merged into it, field by field: the last value that is not zero
      stands, for each label and parameter the last one given, and the taints follow each
      other. */
  lemma {:induction false} LastValueStands(dst: Tier, srcs: seq<Tier>)
    ensures
      var all, r := [dst] + srcs, MergeInto(dst, srcs);
      && r.instanceType == LastNonZero("", Map((t: Tier) => t.instanceType, all))
      && r.containerRuntime == LastNonZero("", Map((t: Tier) => t.containerRuntime, all))
      && r.minCapacity == LastNonZero(0, Map((t: Tier) => t.minCapacity, all))
      && r.maxCapacity == LastNonZero(0, Map((t: Tier) => t.maxCapacity, all))
      && r.enableKataSupport == LastNonZero(false, Map((t: Tier) => t.enableKataSupport, all))
  {
    var all := [dst] + srcs;
    if srcs == [] {
      assert all == [dst];
    } else {
      var front, last := srcs[..|srcs| - 1], srcs[|srcs| - 1];
      LastValueStands(dst, front);
      assert all[..|all| - 1] == [dst] + front && all[|all| - 1] == last;
      LastMapped((t: Tier) => t.instanceType, "", all);
      LastMapped((t: Tier) => t.containerRuntime, "", all);
      LastMapped((t: Tier) => t.minCapacity, 0, all);
      LastMapped((t: Tier) => t.maxCapacity, 0, all);
      LastMapped((t: Tier) => t.enableKataSupport, false, all);
    }
  }

  lemma LastMapped<T>(f: Tier -> T, zero: T, all: seq<Tier>)
    requires all != []
    ensures
      var v := f(all[|all| - 1]);
      LastNonZero(zero, Map(f, all)) == if v != zero then v else LastNonZero(zero, Map(f, all[..|all| - 1]))
  {
    MapSnoc(f, all, |all| - 1);
    assert all[..|all|] == all;
    LastNonZeroSnoc(zero, Map(f, all[..|all| - 1]), f(all[|all| - 1]));
  }

  lemma {:induction false} LastLabelStands(dst: Tier, srcs: seq<Tier>, key: string)
    ensures
      var all, r := [dst] + srcs, MergeInto(dst, srcs);
      && Held(key, r.labels) == LastHolding(key, Map((t: Tier) => t.labels, all))
      && Held(key, r.kernelParameters) == LastHolding(key, Map((t: Tier) => t.kernelParameters, all))
  {
    var all := [dst] + srcs;
    if srcs == [] {
      assert all == [dst];
    } else {
      var front, last := srcs[..|srcs| - 1], srcs[|srcs| - 1];
      LastLabelStands(dst, front, key);
      assert all == ([dst] + front) + [last];
      assert Map((t: Tier) => t.labels, all) == Map((t: Tier) => t.labels, [dst] + front) + [last.labels];
      assert Map((t: Tier) => t.kernelParameters, all)
          == Map((t: Tier) => t.kernelParameters, [dst] + front) + [last.kernelParameters];
      LastHoldingSnoc(key, Map((t: Tier) => t.labels, [dst] + front), last.labels);
      LastHoldingSnoc(key, Map((t: Tier) => t.kernelParameters, [dst] + front), last.kernelParameters);
    }
  }

  lemma {:induction false} TaintsFollow(dst: Tier, srcs: seq<Tier>)
    ensures MergeInto(dst, srcs).taints == dst.taints + Flatten(Map((t: Tier) => t.taints, srcs))
  {
    if srcs == [] {
      assert Map((t: Tier) => t.taints, srcs) == [] && dst.taints + [] == dst.taints;
    } else {
      var front, last := srcs[..|srcs| - 1], srcs[|srcs| - 1];
      TaintsFollow(dst, front);
      var before := Map((t: Tier) => t.taints, front);
      assert Map((t: Tier) => t.taints, srcs) == before + [last.taints];
      FlattenAppend(before, [last.taints]);
      assert [last.taints][1..] == [] && Flatten([last.taints]) == last.taints;
    }
  }
}
