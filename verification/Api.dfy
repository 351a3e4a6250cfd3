/** The list endpoints (pkg/apiserver/web/handler): a response as a function of the
    canonical query and the stored records. */
module Api {
  import opened Common
  import opened Registry
  import opened Url
  import opened Decimal
  import opened Conditions
  import opened DynamoFilter
  import opened Listing

  /** How the database presents a record: its string attributes, and the reprinting
      of RFC 3339 texts used by the filter. */
  datatype Schema = Schema(attributes: Record -> Item, dates: string -> Option<string>)

  /** A GET on the v2 cluster list. */
  datatype Request = Request(params: seq<Param>)

  datatype Response =
    | ClusterList(items: seq<ClusterSpec>, itemsCount: int, offset: int, limit: int, more: bool)
    | BadRequest
    | Panic

  function NumberOr(text: string, default: int): int {
    var n := Atoi(text);
    if n.Some? then n.value else default
  }

  function Offset(req: Request): int {
    NumberOr(FirstValue(req.params, "offset"), 0)
  }

  function Limit(req: Request): int {
    NumberOr(FirstValue(req.params, "limit"), 200)
  }

  function WithoutServices(c: ClusterSpec): ClusterSpec {
    c.(services := map[])
  }

  function ToResponse(l: Listed, offset: int, limit: int): Response {
    match l
    case Listed(items, count, more) => ClusterList(Map(WithoutServices, items), count, offset, limit, more)
    case Failed(_) => ClusterList([], 0, offset, limit, false)
    case Panicked => Panic
  }

  function ParseAll(texts: seq<string>): Option<seq<FilterCondition>> {
    if texts == [] then Some([])
    else
      var first, rest := ParseCondition(texts[0]), ParseAll(texts[1..]);
      if first.Some? && rest.Some? then Some([first.value] + rest.value) else None
  }

  const NO_CRITERIA := Criteria("", "", "", None)

  /** The records that the conditions admit. */
  function Matching(schema: Schema, conditions: seq<FilterCondition>, stored: seq<Record>): seq<Record> {
    Filter((r: Record) => Admits(conditions, schema.dates, schema.attributes(r)), stored)
  }

  /** The plain answer: filter the stored clusters, then cut the window. */
  function Answer(schema: Schema, req: Request, stored: seq<Record>): Response {
    var offset, limit := Offset(req), Limit(req);
    var texts := Values(req.params, "conditions");
    var conditions := ParseAll(texts);
    if texts == [] then
      ToResponse(Window(WantedAmong(NO_CRITERIA, Map(Spec, stored)), offset, limit), offset, limit)
    else if conditions.None? then BadRequest
    else if !FieldsBuild(conditions.value) then FailedAnswer(req)
    else
      ToResponse(Window(Map(Spec, Matching(schema, conditions.value, stored)), offset, limit), offset, limit)
  }

  /** The answer when a query fails or cannot be built: the handler drops the error. */
  function FailedAnswer(req: Request): Response {
    var texts := Values(req.params, "conditions");
    if texts != [] && ParseAll(texts).None? then BadRequest
    else ClusterList([], 0, Offset(req), Limit(req), false)
  }

  lemma {:induction false} ParseAllSnoc(texts: seq<string>, text: string)
    ensures ParseAll(texts + [text]) ==
      if ParseAll(texts).Some? && ParseCondition(text).Some?
      then Some(ParseAll(texts).value + [ParseCondition(text).value]) else None
  {
    if texts == [] {
      assert texts + [text] == [text];
      assert [text][1..] == [] && ParseAll(texts) == Some([]);
      if ParseCondition(text).Some? {
        var c := ParseCondition(text).value;
        assert [c] + [] == [] + [c];
      }
    } else {
      assert (texts + [text])[1..] == texts[1..] + [text];
      assert (texts + [text])[0] == texts[0];
      ParseAllSnoc(texts[1..], text);
      if ParseAll(texts).Some? && ParseCondition(text).Some? {
        var c, first, rest := ParseCondition(text).value, ParseCondition(texts[0]).value, ParseAll(texts[1..]).value;
        assert [first] + (rest + [c]) == ([first] + rest) + [c];
      }
    }
  }

  lemma {:induction false} ParsedOperands(texts: seq<string>)
    ensures ParseAll(texts).Some? ==>
      forall c :: c in ParseAll(texts).value ==> c.operand in ALLOWED_OPERANDS
  {
    if texts != [] {
      ParsedOperands(texts[1..]);
      NoLessOrEqual(texts[0]);
    }
  }

  lemma MatchingIsSelected(
    schema: Schema, conditions: seq<FilterCondition>, selected: Record -> bool, stored: seq<Record>)
    requires forall r :: r in stored ==> (selected(r) <==> Admits(conditions, schema.dates, schema.attributes(r)))
    ensures Matching(schema, conditions, stored) == Filter(selected, stored)
  {
    FilterCongruence((r: Record) => Admits(conditions, schema.dates, schema.attributes(r)), selected, stored);
  }

  /** ListClustersWithFilter: build the chain, page through the scan, cut the window. */
  method ListClustersWithFilter(schema: Schema, server: Server, offset: int, limit: int, filter: DynamoDBFilter)
    returns (r: Listed)
    requires server.pages != []
    ensures r.Failed? <==>
      (|| (exists c :: c in filter.conditions && c.operand !in ALLOWED_OPERANDS)
       || !FieldsBuild(filter.conditions)
       || (exists i :: 0 <= i < |server.pages| && i in server.failing))
    ensures !r.Failed? ==>
      r == Window(Map(Spec, Matching(schema, filter.conditions, Flatten(server.pages))), offset, limit)
  {
    var f := filter.Build(schema.dates);
    if f.Err? {
      return Failed(f.error);
    }
    if exists c :: c in filter.conditions && !NameBuilds(ParseField(c.field)) {
      return Failed("Building dynamodb scan expression failed");
    }
    var selected := (rec: Record) => Eval(f.value, schema.attributes(rec));
    var clusters := QueryAll(server, selected);
    if clusters.Err? {
      return Failed(clusters.error);
    }
    MatchingIsSelected(schema, filter.conditions, selected, Flatten(server.pages));
    return Window(clusters.value, offset, limit);
  }

  /** Some page of the query fails. */
  predicate Fails(server: Server) {
    exists i :: 0 <= i < |server.pages| && i in server.failing
  }

  /** The v2 list handler. It ignores database errors and then answers with an empty
      list; otherwise it gives the plain answer. A condition that does not parse makes
      a bad request in either case. */
  method ListClustersHandler(schema: Schema, server: Server, req: Request) returns (r: Response)
    requires server.pages != []
    requires forall rec :: rec in Flatten(server.pages) ==> WellIndexed(rec)
    ensures r == if Fails(server) then FailedAnswer(req) else Answer(schema, req, Flatten(server.pages))
  {
    var offset, limit := Offset(req), Limit(req);
    var queryConditions := Values(req.params, "conditions");
    if |queryConditions| == 0 {
      var all := ListClusters(server, offset, limit, NO_CRITERIA);
      return ToResponse(all, offset, limit);
    }
    var filter, ok := CollectConditions(queryConditions);
    if !ok {
      return BadRequest;
    }
    ParsedOperands(queryConditions);
    var matching := ListClustersWithFilter(schema, server, offset, limit, filter);
    return ToResponse(matching, offset, limit);
  }

  /** The loop that fills the filter, up to the first condition that does not parse. */
  method CollectConditions(texts: seq<string>) returns (filter: DynamoDBFilter, ok: bool)
    ensures fresh(filter)
    ensures ParseAll(texts) == if ok then Some(filter.conditions) else None
  {
    filter := new DynamoDBFilter();
    for i := 0 to |texts|
      invariant ParseAll(texts[..i]) == Some(filter.conditions)
      invariant fresh(filter)
    {
      ParseAllSnoc(texts[..i], texts[i]);
      assert texts[..i + 1] == texts[..i] + [texts[i]];
      var condition := ParseCondition(texts[i]);
      if condition.None? {
        BadConditionRefuses(texts, i);
        return filter, false;
      }
      filter.AddCondition(condition.value);
    }
    assert texts[..|texts|] == texts;
    return filter, true;
  }

  lemma {:induction false} BadConditionRefuses(texts: seq<string>, i: nat)
    requires i < |texts| && ParseCondition(texts[i]).None?
    ensures ParseAll(texts).None?
  {
    if i > 0 {
      BadConditionRefuses(texts[1..], i - 1);
    }
  }

  // ---- One key, one answer ---------------------------------------------------------

  /** The cache key of a request: its canonical form. */
  function CacheKey(req: Request): Request {
    Request(Canonical(req.params))
  }

  predicate SameConditions(a: seq<string>, b: seq<string>) {
    multiset(a) == multiset(b)
  }

  lemma {:induction false} ParseAllMembers(texts: seq<string>)
    ensures ParseAll(texts).Some? <==> forall t :: t in texts ==> ParseCondition(t).Some?
    ensures ParseAll(texts).Some? ==>
      forall c :: c in ParseAll(texts).value <==> exists t :: t in texts && ParseCondition(t) == Some(c)
  {
    if texts != [] {
      ParseAllMembers(texts[1..]);
      assert forall t :: t in texts <==> t == texts[0] || t in texts[1..];
      assert ParseAll(texts).Some? <==> ParseCondition(texts[0]).Some? && ParseAll(texts[1..]).Some?;
      if ParseAll(texts).Some? {
        var rest := ParseAll(texts[1..]).value;
        var first := ParseCondition(texts[0]).value;
        assert ParseAll(texts).value == [first] + rest;
      }
    }
  }

  /** Even without the canonical form, permuting the conditions of a request changes
      nothing in the answer. */
  lemma PermutedConditionsSameAnswer(schema: Schema, a: Request, b: Request, stored: seq<Record>)
    requires SameConditions(Values(a.params, "conditions"), Values(b.params, "conditions"))
    requires Offset(a) == Offset(b) && Limit(a) == Limit(b)
    ensures Answer(schema, a, stored) == Answer(schema, b, stored)
  {
    var ta, tb := Values(a.params, "conditions"), Values(b.params, "conditions");
    assert |ta| == |multiset(ta)| == |multiset(tb)| == |tb|;
    assert forall t :: t in ta <==> t in multiset(ta);
    assert forall t :: t in tb <==> t in multiset(tb);
    ParseAllMembers(ta);
    ParseAllMembers(tb);
    if ParseAll(ta).Some? {
      var ca, cb := ParseAll(ta).value, ParseAll(tb).value;
      assert forall c :: c in ca <==> c in cb;
      var selected := (r: Record) => Admits(cb, schema.dates, schema.attributes(r));
      MatchingIsSelected(schema, ca, selected, stored);
      MatchingIsSelected(schema, cb, selected, stored);
    }
  }

  /** The numbers that the canonical form of a request carries are those of the request
      as typed. */
  predicate SameNumbers(req: Request) {
    Offset(CacheKey(req)) == Offset(req) && Limit(CacheKey(req)) == Limit(req)
  }

  /** The numbers survive if the first offset and the first limit are the least. */
  lemma LeastNumbersSurvive(req: Request)
    requires FirstIsLeast(Values(req.params, "offset")) && FirstIsLeast(Values(req.params, "limit"))
    ensures SameNumbers(req)
  {
    FirstValueSurvives(req.params, "offset");
    FirstValueSurvives(req.params, "limit");
  }

  /** Canonicalising a request keeps its answer if the numbers survive; and where either
      request is answered with a list, only then. */
  lemma CanonicalAnswer(schema: Schema, req: Request, stored: seq<Record>)
    ensures SameNumbers(req) ==> Answer(schema, CacheKey(req), stored) == Answer(schema, req, stored)
    ensures Answer(schema, CacheKey(req), stored).ClusterList? || Answer(schema, req, stored).ClusterList? ==>
      (Answer(schema, CacheKey(req), stored) == Answer(schema, req, stored) <==> SameNumbers(req))
  {
    CanonicalConditions(req);
    if SameNumbers(req) {
      PermutedConditionsSameAnswer(schema, CacheKey(req), req, stored);
    }
    AnswerCarriesNumbers(schema, req, stored);
    AnswerCarriesNumbers(schema, CacheKey(req), stored);
  }

  lemma AnswerCarriesNumbers(schema: Schema, req: Request, stored: seq<Record>)
    ensures var r := Answer(schema, req, stored);
      r.ClusterList? ==> r.offset == Offset(req) && r.limit == Limit(req)
  {
  }

  lemma CanonicalConditions(req: Request)
    ensures SameConditions(Values(CacheKey(req).params, "conditions"), Values(req.params, "conditions"))
  {
    CanonicalValues(req.params, "conditions");
    SortStrings(Values(req.params, "conditions"));
  }

  /** With offset=2 before offset=1 the canonical form starts one record earlier; the
      other way round nothing changes. */
  lemma RepeatedOffset()
    ensures
      var up, down := [Param("offset", "1"), Param("offset", "2")], [Param("offset", "2"), Param("offset", "1")];
      && CacheKey(Request(up)) == CacheKey(Request(down))
      && FirstValue(down, "offset") == "2" && FirstValue(Canonical(down), "offset") == "1"
      && FirstValue(up, "offset") == "1" && FirstValue(Canonical(up), "offset") == "1"
  {
    var one, two := Param("offset", "1"), Param("offset", "2");
    var up, down := [one, two], [two, one];
    assert multiset(up) == multiset(down);
    SameKeyIffSameParams(up, down);
    assert up[1..] == [two] && down[1..] == [one] && [one][1..] == [] && [two][1..] == [];
    assert Values([one], "offset") == ["1"] && Values([two], "offset") == ["2"];
    assert Values(up, "offset") == ["1", "2"] && Values(down, "offset") == ["2", "1"];
    assert StrLe("1", "1") && StrLe("1", "2");
    FirstValueSurvives(up, "offset");
  }

  /** The middleware rewrites the URL before the handler sees it: this is what a request
      is answered. */
  function Served(schema: Schema, req: Request, stored: seq<Record>): Response {
    Answer(schema, CacheKey(req), stored)
  }

  /** One key, one answer: two requests share a cache entry exactly when they carry the
      same parameters in whatever order, and then they are served one answer. */
  lemma SameKeySameAnswer(schema: Schema, a: Request, b: Request, stored: seq<Record>)
    ensures CacheKey(a) == CacheKey(b) <==> multiset(a.params) == multiset(b.params)
    ensures multiset(a.params) == multiset(b.params) ==> Served(schema, a, stored) == Served(schema, b, stored)
  {
    SameKeyIffSameParams(a.params, b.params);
  }

  /** The list endpoint without the cache: canonicalise the URL in place, then handle it. */
  method ServeUncached(schema: Schema, server: Server, url: RequestUrl) returns (r: Response)
    requires server.pages != []
    requires forall rec :: rec in Flatten(server.pages) ==> WellIndexed(rec)
    modifies url
    ensures Request(url.rawQuery) == CacheKey(Request(old(url.rawQuery)))
    ensures
      var req := Request(old(url.rawQuery));
      r == if Fails(server) then FailedAnswer(CacheKey(req)) else Served(schema, req, Flatten(server.pages))
  {
    url.SortURLParams();
    r := ListClustersHandler(schema, server, Request(url.rawQuery));
  }

  // ---- What an answer holds ------------------------------------------------------------

  /** The clusters that the windows of a request are cut from. */
  function Listable(schema: Schema, req: Request, stored: seq<Record>): seq<ClusterSpec> {
    var texts := Values(req.params, "conditions");
    if texts == [] then WantedAmong(NO_CRITERIA, Map(Spec, stored))
    else if ParseAll(texts).Some? then Map(Spec, Matching(schema, ParseAll(texts).value, stored))
    else []
  }

  /** The response is a list of the clusters from the offset on, as many as the limit allows,
      each as stored but without its services; it counts them, and says whether there are
      more. */
  predicate Shows(r: Response, all: seq<ClusterSpec>, offset: int, limit: int)
    requires 0 <= offset <= |all| && 0 <= limit
  {
    && r.ClusterList? && r.offset == offset && r.limit == limit
    && |r.items| == (if limit < |all| - offset then limit else |all| - offset)
    && r.itemsCount == |r.items|
    && (forall k :: 0 <= k < |r.items| ==>
          var c := all[offset + k];
          r.items[k] == ClusterSpec(c.name, c.region, c.environment, c.status, c.registeredAt, c.lastUpdated,
                                    map[], c.rest))
    && (r.more <==> offset + |r.items| < |all|)
  }

  /** Every answer: a bad request exactly when some condition does not parse; an empty list
      if a field builds no name; otherwise the window of the listable clusters, or a panic
      exactly where the window is not defined. */
  lemma AnswerIsExact(schema: Schema, req: Request, stored: seq<Record>)
    requires |stored| <= MAX_INT64
    ensures
      var r, texts, all := Answer(schema, req, stored), Values(req.params, "conditions"), Listable(schema, req, stored);
      var offset, limit := Offset(req), Limit(req);
      && (r == BadRequest <==> exists t :: t in texts && ParseCondition(t).None?)
      && (r != BadRequest && texts != [] && !FieldsBuild(ParseAll(texts).value) ==>
            r == ClusterList([], 0, offset, limit, false))
      && (r != BadRequest && (texts == [] || FieldsBuild(ParseAll(texts).value)) ==>
            if 0 <= offset <= |all| && 0 <= limit && offset + limit <= MAX_INT64
            then Shows(r, all, offset, limit) else r == Panic)
  {
    var texts, all := Values(req.params, "conditions"), Listable(schema, req, stored);
    ParseAllMembers(texts);
    ListableIsShort(schema, req, stored);
    NumbersAreRead(req);
    WindowShows(all, Offset(req), Limit(req));
  }

  lemma WindowShows(all: seq<ClusterSpec>, offset: int, limit: int)
    requires IsInt64(offset) && IsInt64(limit) && |all| <= MAX_INT64
    ensures
      var r := ToResponse(Window(all, offset, limit), offset, limit);
      if 0 <= offset <= |all| && 0 <= limit && offset + limit <= MAX_INT64
      then Shows(r, all, offset, limit) else r == Panic
  {
    WindowDefined(all, offset, limit);
  }

  lemma ListableIsShort(schema: Schema, req: Request, stored: seq<Record>)
    ensures |Listable(schema, req, stored)| <= |stored|
  {
    var texts := Values(req.params, "conditions");
    FilterMembers((c: ClusterSpec) => Wanted(NO_CRITERIA, c), Map(Spec, stored));
    if ParseAll(texts).Some? {
      var conditions := ParseAll(texts).value;
      FilterMembers((r: Record) => Admits(conditions, schema.dates, schema.attributes(r)), stored);
    }
  }

  /** The offset and the limit are the numbers that the first value of each spells, or 0 and
      200 if there is none that does. */
  lemma NumbersAreRead(req: Request)
    ensures IsInt64(Offset(req)) && IsInt64(Limit(req))
    ensures
      var offsets := Values(req.params, "offset");
      if offsets != [] && Atoi(offsets[0]).Some? then Atoi(offsets[0]) == Some(Offset(req)) else Offset(req) == 0
    ensures
      var limits := Values(req.params, "limit");
      if limits != [] && Atoi(limits[0]).Some? then Atoi(limits[0]) == Some(Limit(req)) else Limit(req) == 200
  {
  }

  // ---- The records of a table ----------------------------------------------------------

  /** The records are those of the table, each once. */
  ghost predicate Lists(recs: seq<Record>, table: Table) {
    && (forall i, j :: 0 <= i < j < |recs| ==> recs[i] != recs[j])
    && (forall r :: r in recs <==> exists name :: name in table && table[name] == r)
  }

  lemma ListedAreIndexed(recs: seq<Record>, table: Table)
    requires Lists(recs, table) && TableWellIndexed(table)
    ensures forall r :: r in recs ==> WellIndexed(r)
  {
  }

  /** What the plain answers are cut from, said of the table: without conditions, the
      clusters of the table that are not deleted; with conditions, those they admit. */
  lemma AnswerSpeaksOfTable(schema: Schema, conditions: seq<FilterCondition>, recs: seq<Record>, table: Table,
                            c: ClusterSpec)
    requires Lists(recs, table)
    ensures c in WantedAmong(NO_CRITERIA, Map(Spec, recs)) <==>
      exists name :: name in table && table[name].cluster == c && c.status != "Deleted"
    ensures c in Map(Spec, Matching(schema, conditions, recs)) <==>
      exists name :: name in table && table[name].cluster == c
        && Admits(conditions, schema.dates, schema.attributes(table[name]))
  {
    FilterMembers((x: ClusterSpec) => Wanted(NO_CRITERIA, x), Map(Spec, recs));
    SpecMembers(recs, c);
    var admitted := (r: Record) => Admits(conditions, schema.dates, schema.attributes(r));
    FilterMembers(admitted, recs);
    SpecMembers(Filter(admitted, recs), c);
  }

  lemma SpecMembers(recs: seq<Record>, c: ClusterSpec)
    ensures c in Map(Spec, recs) <==> exists r :: r in recs && r.cluster == c
  {
    if r :| r in recs && r.cluster == c {
      var i :| 0 <= i < |recs| && recs[i] == r;
      assert Map(Spec, recs)[i] == c;
    }
  }
}
