/** The service metadata watcher: resolved paths become merge patches for every cluster
    (pkg/client/controllers/servicemetadatawatcher_controller.go, Reconcile). */
module MetadataWatcher {
  import opened Common
  import opened Patches
  import PathSyntax
  import PathResolution
  import Watch

  datatype WatchedField = WatchedField(source: string, destination: string)

  datatype WatchedObject = WatchedObject(name: string, apiVersion: string, kind: string, fields: seq<WatchedField>)

  datatype Watcher = Watcher(namespace: string, deleting: bool, objects: seq<WatchedObject>)

  type Document = map<string, PathResolution.Value>

  /** What the API server has for the watcher: the kinds it may watch, the objects of its
      namespace by kind and name, and the service of the namespace, if it is annotated. */
  datatype World = World(
    allowed: set<Watch.Gvk>,
    documents: map<(Watch.Gvk, string), Document>,
    service: Option<string>)

  datatype Stop = BadVersion | NotAllowed | CannotGet | NoFields | Crash | Nothing | CannotList

  /** The object to read, or why the whole pass stops. */
  function DocumentOf(world: World, o: WatchedObject): Result<Document, Stop> {
    var gv := Watch.ParseGroupVersion(o.apiVersion);
    if gv.None? then Err(BadVersion)
    else
      var gvk := Watch.Gvk(gv.value, o.kind);
      if gvk !in world.allowed then Err(NotAllowed)
      else if (gvk, o.name) !in world.documents then Err(CannotGet)
      else if o.fields == [] then Err(NoFields)
      else Ok(world.documents[(gvk, o.name)])
  }

  /** The object can be read: its version parses, its kind is allowed, it exists, and it has
      watched fields. */
  predicate CanRead(world: World, o: WatchedObject) {
    var gv := Watch.ParseGroupVersion(o.apiVersion);
    && gv.Some?
    && Watch.Gvk(gv.value, o.kind) in world.allowed
    && (Watch.Gvk(gv.value, o.kind), o.name) in world.documents
    && o.fields != []
  }

  /** An object is read exactly if it can be, as the document of its kind and name; what
      stops the pass otherwise is the first of the conditions that fails. */
  lemma DocumentExactly(world: World, o: WatchedObject)
    ensures DocumentOf(world, o).Ok? <==> CanRead(world, o)
    ensures CanRead(world, o) ==>
      var gvk := Watch.Gvk(Watch.ParseGroupVersion(o.apiVersion).value, o.kind);
      DocumentOf(world, o) == Ok(world.documents[(gvk, o.name)])
    ensures DocumentOf(world, o) == Err(BadVersion) <==> Watch.ParseGroupVersion(o.apiVersion).None?
    ensures DocumentOf(world, o) == Err(NotAllowed) <==>
      var gv := Watch.ParseGroupVersion(o.apiVersion);
      gv.Some? && Watch.Gvk(gv.value, o.kind) !in world.allowed
  {
  }

  /** What a watched field comes to: a text, nothing (a path that does not parse or does
      not resolve is only logged), or a panic. */
  function Resolve(doc: Document, source: string): PathResolution.Outcome {
    var path := PathSyntax.ParsePath(source);
    if path.None? then PathResolution.Error else PathResolution.Get(PathResolution.Dict(doc), path.value)
  }

  // ---- The loops ---------------------------------------------------------------------------

  /** The patches for the fields of one object. */
  function FieldWrites(doc: Document, service: string, namespace: string, fields: seq<WatchedField>)
    : Result<seq<Write>, Stop>
  {
    if fields == [] then Ok([])
    else
      var before, last := FieldWrites(doc, service, namespace, fields[..|fields| - 1]), fields[|fields| - 1];
      if before.Err? then before
      else
        match Resolve(doc, last.source)
        case Rendered(text) => Ok(before.value + [Write(service, namespace, last.destination, text)])
        case Error => before
        case Panic => Err(Crash)
  }

  function AllWrites(world: World, service: string, namespace: string, objects: seq<WatchedObject>)
    : Result<seq<Write>, Stop>
  {
    if objects == [] then Ok([])
    else
      var before, last := AllWrites(world, service, namespace, objects[..|objects| - 1]), objects[|objects| - 1];
      if before.Err? then before
      else
        var doc := DocumentOf(world, last);
        if doc.Err? then Err(doc.error)
        else
          var more := FieldWrites(doc.value, service, namespace, last.fields);
          if more.Err? then more else Ok(before.value + more.value)
  }

  method CollectFields(doc: Document, service: string, namespace: string, fields: seq<WatchedField>)
    returns (r: Result<seq<Write>, Stop>)
    ensures r == FieldWrites(doc, service, namespace, fields)
  {
    var patches: seq<Write> := [];
    for i := 0 to |fields|
      invariant FieldWrites(doc, service, namespace, fields[..i]) == Ok(patches)
    {
      var field := fields[i];
      assert fields[..i + 1][..i] == fields[..i];
      var path := PathSyntax.ParsePath(field.source);
      if path.None? {
        continue;
      }
      var value := PathResolution.GetNestedString(PathResolution.Dict(doc), path.value);
      match value {
        case Error =>
        case Panic =>
          FieldsStop(doc, service, namespace, fields, i + 1);
          return Err(Crash);
        case Rendered(text) =>
          patches := patches + [Write(service, namespace, field.destination, text)];
      }
    }
    assert fields[..|fields|] == fields;
    return Ok(patches);
  }

  /** What stops a prefix stops the whole. */
  lemma {:induction false} FieldsStop(
    doc: Document, service: string, namespace: string, fields: seq<WatchedField>, n: nat)
    requires n <= |fields| && FieldWrites(doc, service, namespace, fields[..n]).Err?
    ensures FieldWrites(doc, service, namespace, fields) == FieldWrites(doc, service, namespace, fields[..n])
  {
    if n == |fields| {
      assert fields[..n] == fields;
    } else {
      var front := fields[..|fields| - 1];
      assert front[..n] == fields[..n];
      FieldsStop(doc, service, namespace, front, n);
    }
  }

  lemma {:induction false} ObjectsStop(
    world: World, service: string, namespace: string, objects: seq<WatchedObject>, n: nat)
    requires n <= |objects| && AllWrites(world, service, namespace, objects[..n]).Err?
    ensures AllWrites(world, service, namespace, objects) == AllWrites(world, service, namespace, objects[..n])
  {
    if n == |objects| {
      assert objects[..n] == objects;
    } else {
      var front := objects[..|objects| - 1];
      assert front[..n] == objects[..n];
      ObjectsStop(world, service, namespace, front, n);
    }
  }

  method CollectPatches(world: World, service: string, namespace: string, objects: seq<WatchedObject>)
    returns (r: Result<seq<Write>, Stop>)
    ensures r == AllWrites(world, service, namespace, objects)
  {
    var patches: seq<Write> := [];
    for i := 0 to |objects|
      invariant AllWrites(world, service, namespace, objects[..i]) == Ok(patches)
    {
      assert objects[..i + 1][..i] == objects[..i];
      var doc := DocumentOf(world, objects[i]);
      if doc.Err? {
        ObjectsStop(world, service, namespace, objects, i + 1);
        return Err(doc.error);
      }
      var more := CollectFields(doc.value, service, namespace, objects[i].fields);
      if more.Err? {
        ObjectsStop(world, service, namespace, objects, i + 1);
        return more;
      }
      patches := patches + more.value;
    }
    assert objects[..|objects|] == objects;
    return Ok(patches);
  }

  /** One pass: collect all patches, then apply them to every cluster. Whatever stops the
      collection leaves every cluster as it was. */
  method Reconcile(watcher: Watcher, world: World, clusters: array<Json>, listFails: bool, failing: seq<set<nat>>)
    returns (r: Result<(), Stop>)
    requires |failing| == clusters.Length
    modifies clusters
    ensures
      var ws := PassWrites(watcher, world);
      if ws.Err? then r == Err(ws.error) && clusters[..] == old(clusters[..])
      else if ws.value != [] && listFails then r == Err(CannotList) && clusters[..] == old(clusters[..])
      else
        r.Ok? && forall i :: 0 <= i < clusters.Length ==>
          clusters[i] == Patched(old(clusters[i]), ws.value, failing[i])
  {
    if watcher.deleting || watcher.objects == [] || world.service.None? {
      return Err(Nothing);
    }
    var patches := CollectPatches(world, world.service.value, watcher.namespace, watcher.objects);
    if patches.Err? {
      return Err(patches.error);
    }
    if patches.value == [] {
      return Ok(());
    }
    var ok := ApplyServiceMetadataPatches(clusters, patches.value, listFails, failing);
    if !ok {
      return Err(CannotList);
    }
    return Ok(());
  }

  /** The patches of a pass. */
  function PassWrites(watcher: Watcher, world: World): Result<seq<Write>, Stop> {
    if watcher.deleting || watcher.objects == [] || world.service.None? then Err(Nothing)
    else AllWrites(world, world.service.value, watcher.namespace, watcher.objects)
  }

  // ---- From watched fields to stored metadata --------------------------------------------------

  /** A watched field and the document that it is read from. */
  datatype Watched = Watched(doc: Document, field: WatchedField)

  /** All watched fields of the readable objects, in order. */
  function AllWatched(world: World, objects: seq<WatchedObject>): seq<Watched> {
    if objects == [] then []
    else
      var last := objects[|objects| - 1];
      var doc := DocumentOf(world, last);
      AllWatched(world, objects[..|objects| - 1])
      + (if doc.Ok? then Map(f => Watched(doc.value, f), last.fields) else [])
  }

  /** The text of the last watched field for the destination that resolves. */
  function LastResolved(watched: seq<Watched>, destination: string): Option<string> {
    if watched == [] then None
    else
      var last := watched[|watched| - 1];
      var r := Resolve(last.doc, last.field.source);
      if last.field.destination == destination && r.Rendered? then Some(r.text)
      else LastResolved(watched[..|watched| - 1], destination)
  }

  lemma {:induction false} LastResolvedAppend(a: seq<Watched>, b: seq<Watched>, destination: string)
    ensures LastResolved(a + b, destination) ==
      if LastResolved(b, destination).Some? then LastResolved(b, destination) else LastResolved(a, destination)
  {
    if b == [] {
      assert a + b == a;
    } else {
      assert (a + b)[..|a + b| - 1] == a + b[..|b| - 1];
      LastResolvedAppend(a, b[..|b| - 1], destination);
    }
  }

  function Destination(service: string, namespace: string, field: string): seq<string> {
    ["spec", "services", service, namespace, field]
  }

  lemma {:induction false} LastValueAppend(a: seq<Write>, b: seq<Write>, path: seq<string>)
    ensures LastValue(a + b, path) == if LastValue(b, path).Some? then LastValue(b, path) else LastValue(a, path)
  {
    if b == [] {
      assert a + b == a;
    } else {
      assert (a + b)[..|a + b| - 1] == a + b[..|b| - 1];
      LastValueAppend(a, b[..|b| - 1], path);
    }
  }

  lemma SameDestination(service: string, namespace: string, w: Write, field: string)
    requires w.service == service && w.namespace == namespace
    ensures PathOf(w) == Destination(service, namespace, field) <==> w.field == field
  {
    assert PathOf(w)[4] == w.field && Destination(service, namespace, field)[4] == field;
  }

  /** The last value that the fields of an object write is the last one that resolves. */
  lemma {:induction false} FieldsWriteLast(
    doc: Document, service: string, namespace: string, fields: seq<WatchedField>, destination: string)
    requires FieldWrites(doc, service, namespace, fields).Ok?
    ensures LastValue(FieldWrites(doc, service, namespace, fields).value, Destination(service, namespace, destination))
         == LastResolved(Map(f => Watched(doc, f), fields), destination)
  {
    if fields != [] {
      var front, last := fields[..|fields| - 1], fields[|fields| - 1];
      var watched := Map(f => Watched(doc, f), fields);
      FieldsWriteLast(doc, service, namespace, front, destination);
      assert watched[..|fields| - 1] == Map(f => Watched(doc, f), front);
      var r := Resolve(doc, last.source);
      if r.Rendered? {
        var before, w := FieldWrites(doc, service, namespace, front).value,
                         Write(service, namespace, last.destination, r.text);
        SameDestination(service, namespace, w, destination);
        assert (before + [w])[..|before|] == before;
      }
    }
  }

  lemma {:induction false} PassWritesLast(
    world: World, service: string, namespace: string, objects: seq<WatchedObject>, destination: string)
    requires AllWrites(world, service, namespace, objects).Ok?
    ensures LastValue(AllWrites(world, service, namespace, objects).value, Destination(service, namespace, destination))
         == LastResolved(AllWatched(world, objects), destination)
  {
    if objects != [] {
      var front, last := objects[..|objects| - 1], objects[|objects| - 1];
      var doc := DocumentOf(world, last).value;
      var path := Destination(service, namespace, destination);
      PassWritesLast(world, service, namespace, front, destination);
      FieldsWriteLast(doc, service, namespace, last.fields, destination);
      LastValueAppend(AllWrites(world, service, namespace, front).value,
                      FieldWrites(doc, service, namespace, last.fields).value, path);
      LastResolvedAppend(AllWatched(world, front), Map(f => Watched(doc, f), last.fields), destination);
    }
  }

  lemma {:induction false} NothingFails(ws: seq<Write>)
    ensures Successful(ws, {}) == ws
  {
    if ws != [] {
      NothingFails(ws[..|ws| - 1]);
    }
  }

  /** The watcher's promise: after an error-free pass every cluster holds, under the
      service and namespace of the watcher, for each destination the text of the last
      watched field for it that resolves, and what it held before if none does. */
  lemma WatchedFieldsArrive(watcher: Watcher, world: World, cluster: Json, destination: string)
    requires PassWrites(watcher, world).Ok?
    ensures
      var path := Destination(world.service.value, watcher.namespace, destination);
      var text := LastResolved(AllWatched(world, watcher.objects), destination);
      GetAt(Some(Patched(cluster, PassWrites(watcher, world).value, {})), path)
        == if text.Some? then Some(JText(text.value)) else GetAt(Some(cluster), path)
  {
    var ws := PassWrites(watcher, world).value;
    NothingFails(ws);
    PassWritesLast(world, world.service.value, watcher.namespace, watcher.objects, destination);
    DestinationsHoldLastValue(cluster, ws, Write(world.service.value, watcher.namespace, destination, ""));
  }

  /** And nothing else changes: what is not at or below a destination of this service and
      namespace, nor above one, is left alone. */
  lemma RestOfClusterUnchanged(watcher: Watcher, world: World, cluster: Json, q: seq<string>)
    requires PassWrites(watcher, world).Ok?
    requires Part(["spec", "services", world.service.value, watcher.namespace], q)
    ensures GetAt(Some(Patched(cluster, PassWrites(watcher, world).value, {})), q) == GetAt(Some(cluster), q)
  {
    var ws := PassWrites(watcher, world).value;
    NothingFails(ws);
    WritesAreLocal(world, world.service.value, watcher.namespace, watcher.objects);
    forall w | w in ws ensures Part(PathOf(w), q) {
      PartExtends(["spec", "services", world.service.value, watcher.namespace], [w.field], q);
      assert PathOf(w) == ["spec", "services", world.service.value, watcher.namespace] + [w.field];
    }
    RestOfDocumentUnchanged(cluster, ws, q);
  }

  lemma {:induction false} PartExtends(p: seq<string>, more: seq<string>, q: seq<string>)
    requires Part(p, q)
    ensures Part(p + more, q)
  {
    assert (p + more)[0] == p[0];
    if p[0] == q[0] {
      assert (p + more)[1..] == p[1..] + more;
      PartExtends(p[1..], more, q[1..]);
    }
  }

  lemma {:induction false} FieldsAreLocal(doc: Document, service: string, namespace: string, fields: seq<WatchedField>)
    requires FieldWrites(doc, service, namespace, fields).Ok?
    ensures forall w :: w in FieldWrites(doc, service, namespace, fields).value ==>
      w.service == service && w.namespace == namespace
  {
    if fields != [] {
      FieldsAreLocal(doc, service, namespace, fields[..|fields| - 1]);
    }
  }

  lemma {:induction false} WritesAreLocal(world: World, service: string, namespace: string, objects: seq<WatchedObject>)
    requires AllWrites(world, service, namespace, objects).Ok?
    ensures forall w :: w in AllWrites(world, service, namespace, objects).value ==>
      w.service == service && w.namespace == namespace
  {
    if objects != [] {
      var last := objects[|objects| - 1];
      WritesAreLocal(world, service, namespace, objects[..|objects| - 1]);
      FieldsAreLocal(DocumentOf(world, last).value, service, namespace, last.fields);
    }
  }

  /** Which texts these are: a field whose source is a well-formed path resolves to a text
      exactly when that is the leaf of a plain walk through the document. */
  lemma ResolvesToLeaf(doc: Document, ts: seq<PathSyntax.Token>, text: string)
    requires PathSyntax.ValidTokens(ts) && ts != []
    ensures Resolve(doc, PathSyntax.Render(ts)) == PathResolution.Rendered(text)
       <==> exists used :: PathResolution.PrintedFrom(PathResolution.Dict(doc), ts, text, used)
  {
    PathResolution.PathTextResolves(doc, ts, text);
  }

  /** The plain walk along the path gets to a value from which the resolver cannot go on. */
  ghost predicate PathPanics(doc: Document, source: string) {
    exists ts, k ::
      && PathSyntax.ValidTokens(ts) && ts != [] && PathSyntax.Texts(ts) == PathSyntax.Tokenize(source)
      && PathResolution.PanicAt(PathResolution.Dict(doc), ts, k)
  }

  lemma ResolvePanicsIff(doc: Document, source: string)
    ensures Resolve(doc, source).Panic? <==> PathPanics(doc, source)
  {
    if Resolve(doc, source).Panic? {
      var ts := PathSyntax.TokenizeIsTexts(source);
      PathResolution.PanicsIff(PathResolution.Dict(doc), ts);
    }
    if ts, k :|
      && PathSyntax.ValidTokens(ts) && ts != [] && PathSyntax.Texts(ts) == PathSyntax.Tokenize(source)
      && PathResolution.PanicAt(PathResolution.Dict(doc), ts, k)
    {
      PathResolution.PanicsIff(PathResolution.Dict(doc), ts);
    }
  }

  /** A field that is missing from the document, an index out of range, or a text that is no
      index, where brackets have led to maps only, is skipped and stops nothing. */
  lemma MissingIsSkipped(doc: Document, ts: seq<PathSyntax.Token>, k: nat)
    requires PathSyntax.ValidTokens(ts) && k < |ts|
    requires
      var at := PathResolution.Walk(PathResolution.Dict(doc), ts[..k]);
      at.Some? && PathResolution.Next(at.value, ts[k]).None?
    requires forall j :: 0 <= j <= k && (j == 0 || ts[j - 1].Bracket?) ==>
      var at := PathResolution.Walk(PathResolution.Dict(doc), ts[..j]);
      at.Some? && at.value.Dict?
    ensures Resolve(doc, PathSyntax.Render(ts)) == PathResolution.Error
  {
    PathSyntax.PathRoundTrip(ts);
    PathResolution.MissingIsError(PathResolution.Dict(doc), ts, k);
  }

  ghost predicate NoPanic(watched: seq<Watched>) {
    forall w :: w in watched ==> !PathPanics(w.doc, w.field.source)
  }

  lemma NoPanicAppend(a: seq<Watched>, b: seq<Watched>)
    ensures NoPanic(a + b) <==> NoPanic(a) && NoPanic(b)
  {
    assert forall w :: w in a + b <==> w in a || w in b;
  }

  predicate AllReadable(world: World, objects: seq<WatchedObject>) {
    forall o :: o in objects ==> CanRead(world, o)
  }

  lemma AllReadableSnoc(world: World, front: seq<WatchedObject>, last: WatchedObject)
    ensures AllReadable(world, front + [last]) <==> AllReadable(world, front) && CanRead(world, last)
  {
    assert forall o :: o in front + [last] <==> o in front || o == last;
  }

  /** A pass goes through exactly when the watcher is not being deleted and watches
      something, its namespace has a service, every object can be read and no path leads to
      a panic. */
  lemma PassGoesThroughIff(watcher: Watcher, world: World)
    ensures PassWrites(watcher, world).Ok? <==>
      && !watcher.deleting && watcher.objects != [] && world.service.Some?
      && AllReadable(world, watcher.objects) && NoPanic(AllWatched(world, watcher.objects))
  {
    if world.service.Some? {
      ObjectsGoThroughIff(world, world.service.value, watcher.namespace, watcher.objects);
    }
  }

  lemma {:induction false} ObjectsGoThroughIff(
    world: World, service: string, namespace: string, objects: seq<WatchedObject>)
    ensures AllWrites(world, service, namespace, objects).Ok?
       <==> AllReadable(world, objects) && NoPanic(AllWatched(world, objects))
  {
    if objects != [] {
      var front, last := objects[..|objects| - 1], objects[|objects| - 1];
      assert objects == front + [last];
      ObjectsGoThroughIff(world, service, namespace, front);
      AllReadableSnoc(world, front, last);
      DocumentExactly(world, last);
      var doc := DocumentOf(world, last);
      if doc.Ok? {
        FieldsGoThroughIff(doc.value, service, namespace, last.fields);
        NoPanicAppend(AllWatched(world, front), Map(f => Watched(doc.value, f), last.fields));
      }
    }
  }

  lemma {:induction false} FieldsGoThroughIff(
    doc: Document, service: string, namespace: string, fields: seq<WatchedField>)
    ensures FieldWrites(doc, service, namespace, fields).Ok? <==> NoPanic(Map(f => Watched(doc, f), fields))
  {
    if fields != [] {
      var front, last := fields[..|fields| - 1], fields[|fields| - 1];
      FieldsGoThroughIff(doc, service, namespace, front);
      var all, some := Map(f => Watched(doc, f), fields), Map(f => Watched(doc, f), front);
      assert all == some + [Watched(doc, last)];
      NoPanicAppend(some, [Watched(doc, last)]);
      ResolvePanicsIff(doc, last.source);
      assert Watched(doc, last) in [Watched(doc, last)];
    }
  }
}
