/** JSON merge patches (section 2 of RFC 7396) and the service metadata patches built
    with them (pkg/client/controllers/servicemetadatawatcher_controller.go). */
module Patches {
  import opened Common

  datatype Json =
    | JNull
    | JText(text: string)
    | JOther(printed: string)
    | JArray(items: seq<Json>)
    | JObject(fields: map<string, Json>)

  type Fields = map<string, Json>

  function Field(m: Fields, key: string): Option<Json> {
    if key in m then Some(m[key]) else None
  }

  /** The members of the target, if it is an object. */
  function Members(target: Option<Json>): Fields {
    if target.Some? && target.value.JObject? then target.value.fields else map[]
  }

  /** The MergePatch algorithm of RFC 7396. */
  function MergePatch(target: Option<Json>, patch: Json): Json
    decreases patch
  {
    match patch
    case JObject(p) =>
      var t := Members(target);
      JObject(map k | k in t.Keys + p.Keys && !(k in p && p[k].JNull?) ::
                if k in p then MergePatch(Field(t, k), p[k]) else t[k])
    case _ => patch
  }

  // ---- Creating patches -----------------------------------------------------------------

  predicate NullFree(j: Json) {
    match j
    case JNull => false
    case JObject(m) => forall k :: k in m ==> NullFree(m[k])
    case _ => true
  }

  /** The patch library's difference of two objects. */
  function Diff(a: Json, b: Json): Fields
    requires a.JObject? && b.JObject?
    decreases b
  {
    map k | k in a.fields.Keys + b.fields.Keys && DiffAt(a, b, k) != None :: DiffAt(a, b, k).value
  }

  /** What the difference says about one key, if anything. */
  function DiffAt(a: Json, b: Json, k: string): Option<Json>
    requires a.JObject? && b.JObject?
    decreases b, k
  {
    if k !in b.fields then (if k in a.fields then Some(JNull) else None)
    else if k !in a.fields then Some(b.fields[k])
    else if a.fields[k].JObject? && b.fields[k].JObject? then
      var d := Diff(a.fields[k], b.fields[k]);
      if d == map[] then None else Some(JObject(d))
    else if a.fields[k] == b.fields[k] then None
    else Some(b.fields[k])
  }

  /** Into nothing, a document without nulls is written as it is. */
  lemma {:induction false} MergeIntoNothing(patch: Json)
    requires NullFree(patch)
    ensures MergePatch(None, patch) == patch
    decreases patch
  {
    if patch.JObject? {
      forall k | k in patch.fields ensures MergePatch(None, patch.fields[k]) == patch.fields[k] {
        MergeIntoNothing(patch.fields[k]);
      }
      assert Members(None) == map[];
      assert MergePatch(None, patch).fields == patch.fields;
    }
  }

  /** The difference is empty only between equal objects. */
  lemma {:induction false} EmptyDiff(a: Json, b: Json)
    requires a.JObject? && b.JObject? && Diff(a, b) == map[]
    ensures a == b
    decreases b
  {
    forall k | k in a.fields.Keys + b.fields.Keys ensures k in a.fields && k in b.fields && a.fields[k] == b.fields[k] {
      assert k !in Diff(a, b);
      assert DiffAt(a, b, k) == None;
      if k in a.fields && k in b.fields && a.fields[k].JObject? && b.fields[k].JObject? {
        EmptyDiff(a.fields[k], b.fields[k]);
      }
    }
    assert a.fields == b.fields;
  }

  lemma {:induction false} NoDiff(a: Json)
    requires a.JObject?
    ensures Diff(a, a) == map[]
    decreases a
  {
    forall k | k in a.fields ensures DiffAt(a, a, k) == None {
      if a.fields[k].JObject? {
        NoDiff(a.fields[k]);
      }
    }
  }

  /** CreateMergePatch and MergePatch are inverse: applying the difference of two
      objects to the first gives the second, if the second has no nulls. */
  lemma {:induction false} PatchRoundTrip(a: Json, b: Json)
    requires a.JObject? && b.JObject? && NullFree(b)
    ensures MergePatch(Some(a), JObject(Diff(a, b))) == b
    decreases b
  {
    var d := Diff(a, b);
    var r := MergePatch(Some(a), JObject(d));
    forall k ensures k in r.fields <==> k in b.fields
             ensures k in b.fields ==> r.fields[k] == b.fields[k] {
      PatchedKey(a, d, k);
      assert k in d <==> DiffAt(a, b, k).Some?;
      assert k in d ==> d[k] == DiffAt(a, b, k).value;
      if k in b.fields {
        assert NullFree(b.fields[k]);
        if k !in a.fields {
          MergeIntoNothing(b.fields[k]);
        } else if a.fields[k].JObject? && b.fields[k].JObject? {
          PatchRoundTrip(a.fields[k], b.fields[k]);
          if Diff(a.fields[k], b.fields[k]) == map[] {
            EmptyDiff(a.fields[k], b.fields[k]);
          }
        } else if a.fields[k] != b.fields[k] {
          MergeOver(Some(a.fields[k]), b.fields[k]);
        }
      }
    }
    assert r.fields == b.fields;
  }

  lemma PatchedKey(a: Json, d: Fields, k: string)
    requires a.JObject?
    ensures var r := MergePatch(Some(a), JObject(d));
      && r.JObject?
      && (k in r.fields <==> (k in a.fields || k in d) && !(k in d && d[k].JNull?))
      && (k in r.fields ==> r.fields[k] == if k in d then MergePatch(Field(a.fields, k), d[k]) else a.fields[k])
  {
  }

  /** A document without nulls replaces anything that is not an object. */
  lemma MergeOver(target: Option<Json>, patch: Json)
    requires NullFree(patch) && (!patch.JObject? || Members(target) == map[])
    ensures MergePatch(target, patch) == patch
  {
    if patch.JObject? {
      MergeIntoNothing(patch);
      assert Members(None) == map[];
      assert MergePatch(target, patch).fields == MergePatch(None, patch).fields;
    }
  }

  // ---- Single-path patches -----------------------------------------------------------------

  function Single(path: seq<string>, v: Json): Json {
    if path == [] then v else JObject(map[path[0] := Single(path[1..], v)])
  }

  /** The document with the value at the path, and objects on the way there. */
  function SetAt(target: Option<Json>, path: seq<string>, v: Json): Json
    decreases |path|
  {
    if path == [] then v
    else
      var m := Members(target);
      JObject(m[path[0] := SetAt(Field(m, path[0]), path[1..], v)])
  }

  function GetAt(target: Option<Json>, path: seq<string>): Option<Json>
    decreases |path|
  {
    if path == [] then target else GetAt(Field(Members(target), path[0]), path[1..])
  }

  /** Applying a single-path patch sets the path. */
  lemma {:induction false} SinglePatchSets(target: Option<Json>, path: seq<string>, text: string)
    ensures MergePatch(target, Single(path, JText(text))) == SetAt(target, path, JText(text))
    decreases |path|
  {
    if path != [] {
      var m := Members(target);
      SinglePatchSets(Field(m, path[0]), path[1..], text);
      var sub := Single(path[1..], JText(text));
      assert !sub.JNull?;
      assert MergePatch(target, Single(path, JText(text))).fields == SetAt(target, path, JText(text)).fields;
    }
  }

  /** The paths part at some position before either ends. */
  predicate Part(p: seq<string>, q: seq<string>) {
    p != [] && q != [] && (p[0] != q[0] || Part(p[1..], q[1..]))
  }

  lemma {:induction false} DifferentPathsPart(p: seq<string>, q: seq<string>)
    requires |p| == |q| && p != q
    ensures Part(p, q)
  {
    if p[0] == q[0] {
      assert p == [p[0]] + p[1..] && q == [q[0]] + q[1..];
      DifferentPathsPart(p[1..], q[1..]);
    }
  }

  lemma {:induction false} SetThenGet(target: Option<Json>, path: seq<string>, v: Json)
    ensures GetAt(Some(SetAt(target, path, v)), path) == Some(v)
    decreases |path|
  {
    if path != [] {
      SetThenGet(Field(Members(target), path[0]), path[1..], v);
    }
  }

  lemma {:induction false} SetFrame(target: Option<Json>, path: seq<string>, v: Json, q: seq<string>)
    requires Part(path, q)
    ensures GetAt(Some(SetAt(target, path, v)), q) == GetAt(target, q)
    decreases |path|
  {
    if path[0] == q[0] {
      SetFrame(Field(Members(target), path[0]), path[1..], v, q[1..]);
    }
  }

  lemma {:induction false} SetTwice(target: Option<Json>, path: seq<string>, v: Json, w: Json)
    ensures SetAt(Some(SetAt(target, path, v)), path, w) == SetAt(target, path, w)
    decreases |path|
  {
    if path != [] {
      var m := Members(target);
      SetTwice(Field(m, path[0]), path[1..], v, w);
      var inner := SetAt(Field(m, path[0]), path[1..], v);
      assert m[path[0] := inner][path[0] := SetAt(Some(inner), path[1..], w)]
          == m[path[0] := SetAt(Some(inner), path[1..], w)];
    }
  }

  lemma {:induction false} SetsCommute(target: Option<Json>, p: seq<string>, v: Json, q: seq<string>, w: Json)
    requires Part(p, q)
    ensures SetAt(Some(SetAt(target, p, v)), q, w) == SetAt(Some(SetAt(target, q, w)), p, v)
    decreases |p|
  {
    var m := Members(target);
    var a := SetAt(Field(m, p[0]), p[1..], v);
    var b := SetAt(Field(m, q[0]), q[1..], w);
    SetInside(target, p, v, q, w);
    SetInside(target, q, w, p, v);
    if p[0] == q[0] {
      SetsCommute(Field(m, p[0]), p[1..], v, q[1..], w);
    } else {
      UpdatesCommute(m, p[0], a, q[0], b);
    }
  }

  lemma UpdatesCommute(m: Fields, k: string, a: Json, l: string, b: Json)
    requires k != l
    ensures m[k := a][l := b] == m[l := b][k := a]
  {
  }

  /** Two assignments, seen from the outermost object. */
  lemma SetInside(target: Option<Json>, p: seq<string>, v: Json, q: seq<string>, w: Json)
    requires p != [] && q != []
    ensures
      var m := Members(target);
      var a := SetAt(Field(m, p[0]), p[1..], v);
      SetAt(Some(SetAt(target, p, v)), q, w) ==
        if p[0] == q[0] then JObject(m[p[0] := SetAt(Some(a), q[1..], w)])
        else JObject(m[p[0] := a][q[0] := SetAt(Field(m, q[0]), q[1..], w)])
  {
    var m := Members(target);
    var a := SetAt(Field(m, p[0]), p[1..], v);
    var c := SetAt(Field(m[p[0] := a], q[0]), q[1..], w);
    assert SetAt(Some(SetAt(target, p, v)), q, w) == JObject(m[p[0] := a][q[0] := c]);
    if p[0] == q[0] {
      assert m[p[0] := a][p[0] := c] == m[p[0] := c];
    }
  }

  // ---- Service metadata ---------------------------------------------------------------------

  datatype Write = Write(service: string, namespace: string, field: string, value: string)

  function PathOf(w: Write): seq<string> {
    ["spec", "services", w.service, w.namespace, w.field]
  }

  function PatchOf(w: Write): Json {
    Single(PathOf(w), JText(w.value))
  }

  /** The cluster with only the written metadata: of the service, in the namespace, the
      field. */
  function NewCluster(empty: Json, w: Write): Json
    requires empty.JObject? && "spec" in empty.fields && empty.fields["spec"].JObject?
  {
    var metadata := JObject(map[w.service := JObject(map[w.namespace := JObject(map[w.field := JText(w.value)])])]);
    JObject(empty.fields["spec" := JObject(empty.fields["spec"].fields["services" := metadata])])
  }

  /** createServiceMetadataPatch: the difference between an empty cluster and one that
      carries only the written metadata. An empty cluster's spec has no services, so
      the difference is the single path. */
  lemma CreatedPatchIsSinglePath(empty: Json, w: Write)
    requires empty.JObject? && "spec" in empty.fields && empty.fields["spec"].JObject?
    requires "services" !in empty.fields["spec"].fields
    ensures JObject(Diff(empty, NewCluster(empty, w))) == PatchOf(w)
  {
    var path, v := PathOf(w), JText(w.value);
    var spec := empty.fields["spec"];
    var metadata := JObject(map[w.service := JObject(map[w.namespace := JObject(map[w.field := v])])]);
    SingleOfThree(w.service, w.namespace, w.field, v);
    assert path[1..][1..] == [w.service, w.namespace, w.field];
    AddedKey(spec, "services", metadata);
    assert "services" in Diff(spec, JObject(spec.fields["services" := metadata]));
    ChangedKey(empty, "spec", JObject(spec.fields["services" := metadata]));
    assert Single(path[1..], v) == JObject(map["services" := metadata]);
    assert Single(path, v) == JObject(map["spec" := JObject(map["services" := metadata])]);
  }

  lemma SingleOfThree(a: string, b: string, c: string, v: Json)
    ensures Single([a, b, c], v) == JObject(map[a := JObject(map[b := JObject(map[c := v])])])
  {
    assert [a, b, c][1..] == [b, c] && [b, c][1..] == [c] && [c][1..] == [];
    assert Single([], v) == v && Single([c], v) == JObject(map[c := v]);
    assert Single([b, c], v) == JObject(map[b := JObject(map[c := v])]);
  }

  /** Changing one member that is an object shows as that member's difference. */
  lemma ChangedKey(a: Json, key: string, v: Json)
    requires a.JObject? && key in a.fields && a.fields[key].JObject? && v.JObject?
    requires Diff(a.fields[key], v) != map[]
    ensures Diff(a, JObject(a.fields[key := v])) == map[key := JObject(Diff(a.fields[key], v))]
  {
    var b := JObject(a.fields[key := v]);
    forall k | k in a.fields && k != key ensures DiffAt(a, b, k) == None {
      if a.fields[k].JObject? {
        NoDiff(a.fields[k]);
      }
    }
    assert DiffAt(a, b, key) == Some(JObject(Diff(a.fields[key], v)));
  }

  /** Adding one key shows as that key. */
  lemma AddedKey(a: Json, key: string, v: Json)
    requires a.JObject? && key !in a.fields
    ensures Diff(a, JObject(a.fields[key := v])) == map[key := v]
  {
    var b := JObject(a.fields[key := v]);
    forall k | k in a.fields ensures DiffAt(a, b, k) == None {
      if a.fields[k].JObject? {
        NoDiff(a.fields[k]);
      }
    }
    assert DiffAt(a, b, key) == Some(v);
  }

  lemma {:induction false} SetIntoNothing(path: seq<string>, v: Json)
    ensures SetAt(None, path, v) == Single(path, v)
  {
    if path != [] {
      SetIntoNothing(path[1..], v);
      assert Members(None) == map[] && Field(map[], path[0]) == None;
    }
  }

  /** The document after the patches, in order. */
  function ApplyAll(doc: Json, ws: seq<Write>): Json {
    if ws == [] then doc
    else MergePatch(Some(ApplyAll(doc, ws[..|ws| - 1])), PatchOf(ws[|ws| - 1]))
  }

  lemma ApplyOne(doc: Json, w: Write)
    ensures MergePatch(Some(doc), PatchOf(w)) == SetAt(Some(doc), PathOf(w), JText(w.value))
  {
    SinglePatchSets(Some(doc), PathOf(w), w.value);
  }

  /** The value that the list writes last to a destination. */
  function LastValue(ws: seq<Write>, path: seq<string>): Option<string> {
    if ws == [] then None
    else if PathOf(ws[|ws| - 1]) == path then Some(ws[|ws| - 1].value)
    else LastValue(ws[..|ws| - 1], path)
  }

  /** Every destination ends with the last value written to it; a destination that is
      not written keeps its value. */
  lemma {:induction false} DestinationsHoldLastValue(doc: Json, ws: seq<Write>, dest: Write)
    ensures GetAt(Some(ApplyAll(doc, ws)), PathOf(dest)) ==
      if LastValue(ws, PathOf(dest)).Some? then Some(JText(LastValue(ws, PathOf(dest)).value))
      else GetAt(Some(doc), PathOf(dest))
  {
    if ws != [] {
      var front, w := ws[..|ws| - 1], ws[|ws| - 1];
      DestinationsHoldLastValue(doc, front, dest);
      ApplyOne(ApplyAll(doc, front), w);
      if PathOf(w) == PathOf(dest) {
        SetThenGet(Some(ApplyAll(doc, front)), PathOf(w), JText(w.value));
      } else {
        DifferentPathsPart(PathOf(w), PathOf(dest));
        SetFrame(Some(ApplyAll(doc, front)), PathOf(w), JText(w.value), PathOf(dest));
      }
    }
  }

  /** Everything else in the document, other fields, services, namespaces and keys, is
      left as it was. */
  lemma {:induction false} RestOfDocumentUnchanged(doc: Json, ws: seq<Write>, q: seq<string>)
    requires forall w :: w in ws ==> Part(PathOf(w), q)
    ensures GetAt(Some(ApplyAll(doc, ws)), q) == GetAt(Some(doc), q)
  {
    if ws != [] {
      var front, w := ws[..|ws| - 1], ws[|ws| - 1];
      assert w in ws && forall x :: x in front ==> x in ws;
      RestOfDocumentUnchanged(doc, front, q);
      ApplyOne(ApplyAll(doc, front), w);
      SetFrame(Some(ApplyAll(doc, front)), PathOf(w), JText(w.value), q);
    }
  }

  predicate Writes(ws: seq<Write>, path: seq<string>) {
    exists i :: 0 <= i < |ws| && PathOf(ws[i]) == path
  }

  /** A write to a destination that the list writes again makes no difference. */
  lemma {:induction false} OverwrittenLater(doc: Json, w: Write, ws: seq<Write>)
    requires Writes(ws, PathOf(w))
    ensures ApplyAll(SetAt(Some(doc), PathOf(w), JText(w.value)), ws) == ApplyAll(doc, ws)
  {
    var front, last := ws[..|ws| - 1], ws[|ws| - 1];
    var written := SetAt(Some(doc), PathOf(w), JText(w.value));
    ApplyOne(ApplyAll(written, front), last);
    ApplyOne(ApplyAll(doc, front), last);
    if Writes(front, PathOf(w)) {
      OverwrittenLater(doc, w, front);
    } else {
      assert forall i :: 0 <= i < |front| ==> front[i] == ws[i];
      assert PathOf(last) == PathOf(w);
      SetPasses(doc, w, front);
      SetTwice(Some(ApplyAll(doc, front)), PathOf(w), JText(w.value), JText(last.value));
    }
  }

  /** A write to a destination that the list does not write can be made afterwards. */
  lemma {:induction false} SetPasses(doc: Json, w: Write, ws: seq<Write>)
    requires !Writes(ws, PathOf(w))
    ensures ApplyAll(SetAt(Some(doc), PathOf(w), JText(w.value)), ws)
         == SetAt(Some(ApplyAll(doc, ws)), PathOf(w), JText(w.value))
  {
    if ws != [] {
      var front, last := ws[..|ws| - 1], ws[|ws| - 1];
      var written := SetAt(Some(doc), PathOf(w), JText(w.value));
      assert PathOf(ws[|ws| - 1]) != PathOf(w);
      assert forall i :: 0 <= i < |front| ==> front[i] == ws[i];
      SetPasses(doc, w, front);
      ApplyOne(ApplyAll(written, front), last);
      ApplyOne(ApplyAll(doc, front), last);
      DifferentPathsPart(PathOf(w), PathOf(last));
      SetsCommute(Some(ApplyAll(doc, front)), PathOf(w), JText(w.value), PathOf(last), JText(last.value));
    }
  }

  /** A complete pass makes good any earlier pass that applied only some of the patches,
      in whatever order and however often. */
  lemma {:induction false} PassAfterPartialPass(doc: Json, partial: seq<Write>, ws: seq<Write>)
    requires forall w :: w in partial ==> Writes(ws, PathOf(w))
    ensures ApplyAll(ApplyAll(doc, partial), ws) == ApplyAll(doc, ws)
  {
    if partial != [] {
      var front, w := partial[..|partial| - 1], partial[|partial| - 1];
      assert w in partial && forall x :: x in front ==> x in partial;
      ApplyOne(ApplyAll(doc, front), w);
      OverwrittenLater(ApplyAll(doc, front), w, ws);
      PassAfterPartialPass(doc, front, ws);
    }
  }

  /** Reapplying the whole list changes nothing. */
  lemma PassIsIdempotent(doc: Json, ws: seq<Write>)
    ensures ApplyAll(ApplyAll(doc, ws), ws) == ApplyAll(doc, ws)
  {
    forall w | w in ws ensures Writes(ws, PathOf(w)) {
      var i :| 0 <= i < |ws| && ws[i] == w;
      assert PathOf(ws[i]) == PathOf(w);
    }
    PassAfterPartialPass(doc, ws, ws);
  }

  /** The writes whose patch call succeeds. */
  function Successful(ws: seq<Write>, failing: set<nat>): seq<Write> {
    if ws == [] then []
    else Successful(ws[..|ws| - 1], failing) + (if |ws| - 1 in failing then [] else [ws[|ws| - 1]])
  }

  /** The cluster after the patch calls that succeed. */
  function Patched(doc: Json, ws: seq<Write>, failing: set<nat>): Json {
    ApplyAll(doc, Successful(ws, failing))
  }

  /** The inner loop: one cluster gets every patch in order; a patch call that fails is
      logged and skipped. */
  method PatchCluster(cluster: Json, ws: seq<Write>, failing: set<nat>) returns (r: Json)
    ensures r == Patched(cluster, ws, failing)
  {
    r := cluster;
    for j := 0 to |ws|
      invariant r == ApplyAll(cluster, Successful(ws[..j], failing))
    {
      assert ws[..j + 1][..j] == ws[..j];
      ghost var done := Successful(ws[..j], failing);
      assert (done + [ws[j]])[..|done|] == done && done + [] == done;
      if j !in failing {
        r := MergePatch(Some(r), PatchOf(ws[j]));
      }
    }
    assert ws[..|ws|] == ws;
  }

  /** applyServiceMetadataPatches: every listed cluster is patched in place. */
  method ApplyServiceMetadataPatches(clusters: array<Json>, ws: seq<Write>, listFails: bool,
                                     failing: seq<set<nat>>)
    returns (ok: bool)
    requires |failing| == clusters.Length
    modifies clusters
    ensures ok == !listFails
    ensures listFails ==> clusters[..] == old(clusters[..])
    ensures !listFails ==> forall i :: 0 <= i < clusters.Length ==>
      clusters[i] == Patched(old(clusters[i]), ws, failing[i])
  {
    if listFails {
      return false;
    }
    for i := 0 to clusters.Length
      invariant forall k :: 0 <= k < i ==> clusters[k] == Patched(old(clusters[k]), ws, failing[k])
      invariant forall k :: i <= k < clusters.Length ==> clusters[k] == old(clusters[k])
    {
      clusters[i] := PatchCluster(clusters[i], ws, failing[i]);
    }
    return true;
  }

  /** Write i is the last to its destination whose patch call succeeds. */
  predicate LastSuccess(ws: seq<Write>, failing: set<nat>, path: seq<string>, i: int) {
    && 0 <= i < |ws| && PathOf(ws[i]) == path && i !in failing
    && forall k :: i < k < |ws| && PathOf(ws[k]) == path ==> k in failing
  }

  lemma LastOfSuccessful(ws: seq<Write>, failing: set<nat>, path: seq<string>)
    requires ws != []
    ensures
      var n := |ws| - 1;
      LastValue(Successful(ws, failing), path) ==
        if PathOf(ws[n]) == path && n !in failing then Some(ws[n].value)
        else LastValue(Successful(ws[..n], failing), path)
  {
    var n := |ws| - 1;
    var done := Successful(ws[..n], failing);
    assert (done + [ws[n]])[..|done|] == done && done + [] == done;
  }

  lemma {:induction false} LastSuccessStands(ws: seq<Write>, failing: set<nat>, path: seq<string>, i: int)
    requires LastSuccess(ws, failing, path, i)
    ensures LastValue(Successful(ws, failing), path) == Some(ws[i].value)
  {
    var n := |ws| - 1;
    LastOfSuccessful(ws, failing, path);
    if i < n {
      assert LastSuccess(ws[..n], failing, path, i);
      LastSuccessStands(ws[..n], failing, path, i);
    }
  }

  lemma {:induction false} NoSuccess(ws: seq<Write>, failing: set<nat>, path: seq<string>)
    requires forall i :: 0 <= i < |ws| && PathOf(ws[i]) == path ==> i in failing
    ensures LastValue(Successful(ws, failing), path) == None
  {
    if ws != [] {
      LastOfSuccessful(ws, failing, path);
      NoSuccess(ws[..|ws| - 1], failing, path);
    }
  }

  /** A failed patch is not retried by itself, since no error is returned: a destination
      holds the last value whose patch call succeeded, or what it held before; and the
      next complete pass makes it good. */
  lemma FailedPatchesAreSkipped(doc: Json, ws: seq<Write>, failing: set<nat>, dest: Write)
    ensures forall i :: LastSuccess(ws, failing, PathOf(dest), i) ==>
      GetAt(Some(Patched(doc, ws, failing)), PathOf(dest)) == Some(JText(ws[i].value))
    ensures (forall i :: 0 <= i < |ws| && PathOf(ws[i]) == PathOf(dest) ==> i in failing) ==>
      GetAt(Some(Patched(doc, ws, failing)), PathOf(dest)) == GetAt(Some(doc), PathOf(dest))
    ensures ApplyAll(Patched(doc, ws, failing), ws) == ApplyAll(doc, ws)
  {
    forall i | LastSuccess(ws, failing, PathOf(dest), i)
      ensures LastValue(Successful(ws, failing), PathOf(dest)) == Some(ws[i].value)
    {
      LastSuccessStands(ws, failing, PathOf(dest), i);
    }
    if forall i :: 0 <= i < |ws| && PathOf(ws[i]) == PathOf(dest) ==> i in failing {
      NoSuccess(ws, failing, PathOf(dest));
    }
    DestinationsHoldLastValue(doc, Successful(ws, failing), dest);
    SuccessfulAreWrites(ws, failing);
    PassAfterPartialPass(doc, Successful(ws, failing), ws);
  }

  lemma {:induction false} SuccessfulAreWrites(ws: seq<Write>, failing: set<nat>)
    ensures forall w :: w in Successful(ws, failing) ==> Writes(ws, PathOf(w))
  {
    if ws != [] {
      var front, last := ws[..|ws| - 1], ws[|ws| - 1];
      SuccessfulAreWrites(front, failing);
      forall w | w in Successful(ws, failing) ensures Writes(ws, PathOf(w)) {
        if w in Successful(front, failing) {
          var i :| 0 <= i < |front| && PathOf(front[i]) == PathOf(w);
          assert ws[i] == front[i];
        } else {
          assert w == last && PathOf(ws[|ws| - 1]) == PathOf(w);
        }
      }
    }
  }
}
