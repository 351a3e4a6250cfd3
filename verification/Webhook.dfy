/** Alert-driven tag updates with retries (pkg/client/webhook/webhook.go). */
module Webhook {
  import opened Common

  const DEAD_MANS_SWITCH := "CRCDeadMansSwitch"
  const FIRING := "firing"
  const RESOLVED := "resolved"
  const ATTEMPTS := 3

  /** A stored cluster: the excluded-tags annotation and the tags. */
  datatype Cluster = Cluster(name: string, excludedTags: string, tags: map<string, string>)

  type Tags = map<string, string>

  function Excluded(c: Cluster): seq<string> {
    if c.excludedTags == "" then [] else Split(c.excludedTags, ',')
  }

  /** The cluster with the alert's tags, except the excluded ones. */
  function Tagged(tag: Tags, c: Cluster): Cluster {
    c.(tags := c.tags + (map k | k in tag && k !in Excluded(c) :: tag[k]))
  }

  /** A failure-free pass over the clusters. */
  function Pass(tag: Tags, clusters: seq<Cluster>): seq<Cluster> {
    Map((c: Cluster) => Tagged(tag, c), clusters)
  }

  /** The first n clusters done, the rest untouched. */
  function Progress(tag: Tags, clusters: seq<Cluster>, n: nat): seq<Cluster>
    requires n <= |clusters|
  {
    Pass(tag, clusters[..n]) + clusters[n..]
  }

  /** What goes wrong in one attempt: the list call, or the update of the cluster at a
      position (if there is one), whose write may have gone through nevertheless. */
  datatype Fault = NoFault | ListFails | UpdateFails(at: nat, written: bool)

  predicate Succeeds(fault: Fault, clusters: seq<Cluster>) {
    fault.NoFault? || (fault.UpdateFails? && fault.at >= |clusters|)
  }

  /** How many clusters an attempt leaves updated. */
  function Reach(fault: Fault, clusters: seq<Cluster>): (n: nat)
    ensures n <= |clusters|
    ensures Succeeds(fault, clusters) ==> n == |clusters|
  {
    match fault
    case NoFault => |clusters|
    case ListFails => 0
    case UpdateFails(at, written) =>
      if at >= |clusters| then |clusters| else if written then at + 1 else at
  }

  /** Tags that the annotation lists between commas and tags that the alert does not mention
      never change; the others take the alert's value. */
  lemma TaggedExactly(tag: Tags, c: Cluster, key: string)
    ensures
      var r := Tagged(tag, c);
      var excluded := c.excludedTags != "" && key in Split(c.excludedTags, ',');
      && (key in tag && !excluded ==> key in r.tags && r.tags[key] == tag[key])
      && (key !in tag || excluded ==>
            (key in r.tags <==> key in c.tags) && (key in c.tags ==> r.tags[key] == c.tags[key]))
      && r.name == c.name && r.excludedTags == c.excludedTags
  {
  }

  lemma TaggedTwice(tag: Tags, c: Cluster)
    ensures Tagged(tag, Tagged(tag, c)) == Tagged(tag, c)
  {
    assert Tagged(tag, Tagged(tag, c)).tags == Tagged(tag, c).tags;
  }

  /** A pass over a partly updated store ends where a pass over the original would. */
  lemma ProgressComposes(tag: Tags, clusters: seq<Cluster>, m: nat, n: nat)
    requires m <= |clusters| && n <= |clusters|
    ensures |Progress(tag, clusters, m)| == |clusters|
    ensures Progress(tag, Progress(tag, clusters, m), n) == Progress(tag, clusters, if m < n then n else m)
  {
    var mid := Progress(tag, clusters, m);
    var end := Progress(tag, mid, n);
    var want := Progress(tag, clusters, if m < n then n else m);
    forall i | 0 <= i < |clusters| ensures end[i] == want[i] {
      TaggedTwice(tag, clusters[i]);
    }
  }

  lemma ProgressStep(tag: Tags, clusters: seq<Cluster>, i: nat)
    requires i < |clusters|
    ensures |Progress(tag, clusters, i)| == |clusters|
    ensures Progress(tag, clusters, i)[i := Tagged(tag, clusters[i])] == Progress(tag, clusters, i + 1)
  {
    var next := Progress(tag, clusters, i)[i := Tagged(tag, clusters[i])];
    var want := Progress(tag, clusters, i + 1);
    assert |next| == |want|;
    forall k | 0 <= k < |want| ensures next[k] == want[k] {
    }
  }

  lemma ProgressEnds(tag: Tags, clusters: seq<Cluster>)
    ensures Progress(tag, clusters, 0) == clusters
    ensures Progress(tag, clusters, |clusters|) == Pass(tag, clusters)
  {
    assert clusters[..|clusters|] == clusters;
  }

  /** The cluster while the tags in `remaining` are still to be set. */
  function PartlyTagged(tag: Tags, c: Cluster, remaining: set<string>): Cluster {
    c.(tags := c.tags + (map k | k in tag && k !in remaining && k !in Excluded(c) :: tag[k]))
  }

  lemma PartlyTaggedStep(tag: Tags, c: Cluster, remaining: set<string>, key: string)
    requires key in remaining && key in tag
    ensures
      var r := PartlyTagged(tag, c, remaining);
      PartlyTagged(tag, c, remaining - {key}) ==
        if key in Excluded(c) then r else r.(tags := r.tags[key := tag[key]])
  {
    var r := PartlyTagged(tag, c, remaining);
    var want := if key in Excluded(c) then r.tags else r.tags[key := tag[key]];
    assert PartlyTagged(tag, c, remaining - {key}).tags == want;
  }

  lemma PartlyTaggedEnds(tag: Tags, c: Cluster)
    ensures PartlyTagged(tag, c, tag.Keys) == c
    ensures PartlyTagged(tag, c, {}) == Tagged(tag, c)
  {
    assert PartlyTagged(tag, c, tag.Keys).tags == c.tags;
    assert PartlyTagged(tag, c, {}).tags == Tagged(tag, c).tags;
  }

  class Server {
    var clusters: seq<Cluster>

    constructor (initial: seq<Cluster>)
      ensures clusters == initial
    {
      clusters := initial;
    }

    /** The loop over the alert's tags, skipping the excluded ones. */
    method SetTags(tag: Tags, c: Cluster) returns (r: Cluster)
      ensures r == Tagged(tag, c)
    {
      var excluded: seq<string> := [];
      if c.excludedTags != "" {
        excluded := Split(c.excludedTags, ',');
      }
      r := c;
      var remaining := tag.Keys;
      PartlyTaggedEnds(tag, c);
      while remaining != {}
        invariant remaining <= tag.Keys
        invariant r == PartlyTagged(tag, c, remaining)
      {
        var key :| key in remaining;
        PartlyTaggedStep(tag, c, remaining, key);
        remaining := remaining - {key};
        if key in excluded {
          continue;
        }
        r := r.(tags := r.tags[key := tag[key]]);
      }
    }

    /** One attempt: list afresh, update one by one, stop at the first failed update. */
    method UpdateClusterTags(tag: Tags, fault: Fault) returns (ok: bool)
      modifies this
      ensures ok <==> Succeeds(fault, old(clusters))
      ensures clusters == Progress(tag, old(clusters), Reach(fault, old(clusters)))
    {
      ProgressEnds(tag, clusters);
      if fault.ListFails? {
        return false;
      }
      var list := clusters;
      for i := 0 to |list|
        invariant clusters == Progress(tag, list, i)
        invariant fault.UpdateFails? ==> i <= fault.at
      {
        var cluster := SetTags(tag, list[i]);
        ProgressStep(tag, list, i);
        if fault.UpdateFails? && fault.at == i {
          if fault.written {
            clusters := clusters[i := cluster];
          }
          return false;
        }
        clusters := clusters[i := cluster];
      }
      return true;
    }

    /** Retry equals one clean pass: with no other writer, for any pattern of failures,
        a successful attempt leaves what a single failure-free pass would; if all
        attempts fail, some clusters from the front are fully updated and the others
        untouched. The outcome is success exactly when some attempt succeeds. */
    method Retry(tag: Tags, faults: seq<Fault>) returns (ok: bool)
      modifies this
      ensures ok <==> exists i :: 0 <= i < |faults| && Succeeds(faults[i], old(clusters))
      ensures ok ==> clusters == Pass(tag, old(clusters))
      ensures exists n :: 0 <= n <= |old(clusters)| && clusters == Progress(tag, old(clusters), n)
    {
      ghost var start := clusters;
      ghost var reached: nat := 0;
      ProgressEnds(tag, start);
      for i := 0 to |faults|
        invariant reached <= |start| && clusters == Progress(tag, start, reached)
        invariant forall k :: 0 <= k < i ==> !Succeeds(faults[k], start)
      {
        ProgressComposes(tag, start, reached, Reach(faults[i], clusters));
        ok := UpdateClusterTags(tag, faults[i]);
        ghost var now := Reach(faults[i], start);
        reached := if reached < now then now else reached;
        if ok {
          assert Succeeds(faults[i], start);
          assert clusters == Pass(tag, start);
          return true;
        }
      }
      return false;
    }

    /** The dispatch. The dead man's switch is left alone while it fires. Otherwise the first
        rule for the alert applies its tags for the status, firing or resolved; without a
        rule, or in any other status, the alert is refused and nothing changes. */
    method Process(alertName: string, status: string, rules: seq<AlertRule>, faults: seq<Fault>) returns (ok: bool)
      requires |faults| == ATTEMPTS
      modifies this
      ensures alertName == "CRCDeadMansSwitch" && status == "firing" ==> ok && clusters == old(clusters)
      ensures !(alertName == "CRCDeadMansSwitch" && status == "firing") ==>
        && ((forall i :: 0 <= i < |rules| ==> rules[i].alertName != alertName) ==> !ok && clusters == old(clusters))
        && (status != "firing" && status != "resolved" ==> !ok && clusters == old(clusters))
        && (forall i :: FirstFor(rules, alertName, i) && status == "firing" ==>
              Retried(old(clusters), clusters, rules[i].onFiring, faults, ok))
        && (forall i :: FirstFor(rules, alertName, i) && status == "resolved" ==>
              Retried(old(clusters), clusters, rules[i].onResolved, faults, ok))
    {
      if alertName == DEAD_MANS_SWITCH && status == FIRING {
        return true;
      }
      for i := 0 to |rules|
        invariant clusters == old(clusters)
        invariant forall k :: 0 <= k < i ==> rules[k].alertName != alertName
      {
        var a := rules[i];
        if a.alertName == alertName {
          if status == FIRING {
            ok := Retry(a.onFiring, faults);
            return;
          } else if status == RESOLVED {
            ok := Retry(a.onResolved, faults);
            return;
          } else {
            return false;
          }
        }
      }
      return false;
    }
  }

  datatype AlertRule = AlertRule(alertName: string, onFiring: Tags, onResolved: Tags)

  /** Rule i is the first for the alert. */
  predicate FirstFor(rules: seq<AlertRule>, alertName: string, i: int) {
    && 0 <= i < |rules| && rules[i].alertName == alertName
    && forall k :: 0 <= k < i ==> rules[k].alertName != alertName
  }

  /** What the attempts to apply the tags come to. */
  predicate Retried(before: seq<Cluster>, after: seq<Cluster>, tag: Tags, faults: seq<Fault>, ok: bool) {
    && (ok <==> exists i :: 0 <= i < |faults| && Succeeds(faults[i], before))
    && (ok ==> after == Pass(tag, before))
    && (exists n :: 0 <= n <= |before| && after == Progress(tag, before, n))
  }
}
