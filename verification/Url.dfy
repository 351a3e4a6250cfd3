/** Sorting by a total order: the sorted form of a list is unique. */
module Sorting {

  ghost predicate TotalOrder<T(!new)>(le: (T, T) -> bool) {
    && (forall x :: le(x, x))
    && (forall x, y :: le(x, y) && le(y, x) ==> x == y)
    && (forall x, y, z :: le(x, y) && le(y, z) ==> le(x, z))
    && (forall x, y :: le(x, y) || le(y, x))
  }

  predicate Sorted<T>(le: (T, T) -> bool, s: seq<T>) {
    forall i, j :: 0 <= i < j < |s| ==> le(s[i], s[j])
  }

  function Insert<T>(le: (T, T) -> bool, x: T, s: seq<T>): seq<T> {
    if s == [] || le(x, s[0]) then [x] + s else [s[0]] + Insert(le, x, s[1..])
  }

  function Sort<T>(le: (T, T) -> bool, s: seq<T>): seq<T> {
    if s == [] then [] else Insert(le, s[0], Sort(le, s[1..]))
  }

  lemma {:induction false} InsertPermutes<T>(le: (T, T) -> bool, x: T, s: seq<T>)
    ensures multiset(Insert(le, x, s)) == multiset([x] + s)
  {
    if s != [] && !le(x, s[0]) {
      InsertPermutes(le, x, s[1..]);
      assert s == [s[0]] + s[1..];
    }
  }

  lemma {:induction false} InsertSorted<T(!new)>(le: (T, T) -> bool, x: T, s: seq<T>)
    requires TotalOrder(le) && Sorted(le, s)
    ensures Sorted(le, Insert(le, x, s))
  {
    if s != [] && !le(x, s[0]) {
      var rest := Insert(le, x, s[1..]);
      InsertSorted(le, x, s[1..]);
      InsertPermutes(le, x, s[1..]);
      forall y | y in rest ensures le(s[0], y) {
        assert y in multiset(rest);
        assert y in multiset([x] + s[1..]);
      }
    }
  }

  lemma {:induction false} SortSorts<T(!new)>(le: (T, T) -> bool, s: seq<T>)
    requires TotalOrder(le)
    ensures Sorted(le, Sort(le, s))
    ensures multiset(Sort(le, s)) == multiset(s)
  {
    if s != [] {
      SortSorts(le, s[1..]);
      InsertSorted(le, s[0], Sort(le, s[1..]));
      InsertPermutes(le, s[0], Sort(le, s[1..]));
      assert s == [s[0]] + s[1..];
    }
  }

  ghost predicate Antisymmetric<T(!new)>(le: (T, T) -> bool) {
    forall x, y :: le(x, y) && le(y, x) ==> x == y
  }

  lemma {:induction false} SortedUnique<T(!new)>(le: (T, T) -> bool, a: seq<T>, b: seq<T>)
    requires Antisymmetric(le) && Sorted(le, a) && Sorted(le, b)
    requires multiset(a) == multiset(b)
    ensures a == b
  {
    assert |a| == |multiset(a)| == |multiset(b)| == |b|;
    if a != [] {
      SameLeast(le, a, b);
      assert a == [a[0]] + a[1..] && b == [b[0]] + b[1..];
      assert multiset(a[1..]) == multiset(a) - multiset{a[0]};
      assert multiset(b[1..]) == multiset(b) - multiset{b[0]};
      SortedUnique(le, a[1..], b[1..]);
    }
  }

  lemma SameLeast<T(!new)>(le: (T, T) -> bool, a: seq<T>, b: seq<T>)
    requires Antisymmetric(le) && Sorted(le, a) && Sorted(le, b) && a != [] && b != []
    requires multiset(a) == multiset(b)
    ensures a[0] == b[0]
  {
    assert a[0] in multiset(b) && b[0] in multiset(a);
    var i :| 0 <= i < |b| && b[i] == a[0];
    var j :| 0 <= j < |a| && a[j] == b[0];
  }
}

/** The canonical form of a request URL, which is the cache key
    (pkg/apiserver/web/cache.go, sortURLParams). */
module Url {
  import opened Sorting

  /** One decoded `key=value` pair of a query string. */
  datatype Param = Param(key: string, value: string)

  /** Go's string order. */
  predicate StrLe(a: string, b: string) {
    a == [] || (b != [] && (a[0] < b[0] || (a[0] == b[0] && StrLe(a[1..], b[1..]))))
  }

  /** By key, then by value. */
  predicate ParamLe(p: Param, q: Param) {
    if p.key != q.key then StrLe(p.key, q.key) else StrLe(p.value, q.value)
  }

  lemma {:induction false} StrLeOrder(a: string, b: string, c: string)
    ensures StrLe(a, a)
    ensures StrLe(a, b) || StrLe(b, a)
    ensures StrLe(a, b) && StrLe(b, a) ==> a == b
    ensures StrLe(a, b) && StrLe(b, c) ==> StrLe(a, c)
  {
    if a != [] {
      var b' := if b == [] then [] else b[1..];
      var c' := if c == [] then [] else c[1..];
      StrLeOrder(a[1..], b', c');
      assert a == [a[0]] + a[1..];
      assert b != [] ==> b == [b[0]] + b';
    }
  }

  lemma StrLeIsTotalOrder()
    ensures TotalOrder(StrLe)
  {
    forall a: string, b: string, c: string
      ensures StrLe(a, a)
      ensures StrLe(a, b) || StrLe(b, a)
      ensures StrLe(a, b) && StrLe(b, a) ==> a == b
      ensures StrLe(a, b) && StrLe(b, c) ==> StrLe(a, c)
    {
      StrLeOrder(a, b, c);
    }
  }

  lemma ParamLeIsTotalOrder()
    ensures TotalOrder(ParamLe)
  {
    StrLeIsTotalOrder();
  }

  /** url.Values.Get order: the values given for a key, in the order of the query. */
  function Values(query: seq<Param>, key: string): seq<string> {
    if query == [] then []
    else if query[0].key == key then [query[0].value] + Values(query[1..], key)
    else Values(query[1..], key)
  }

  lemma {:induction false} ValuesAppend(a: seq<Param>, b: seq<Param>, key: string)
    ensures Values(a + b, key) == Values(a, key) + Values(b, key)
  {
    if a == [] {
      assert a + b == b;
    } else {
      assert (a + b)[1..] == a[1..] + b;
      ValuesAppend(a[1..], b, key);
    }
  }

  /** How often a pair occurs is how often its value occurs among its key's values. */
  lemma {:induction false} ValuesCount(query: seq<Param>, p: Param)
    ensures multiset(query)[p] == multiset(Values(query, p.key))[p.value]
  {
    if query != [] {
      ValuesCount(query[1..], p);
      assert query == [query[0]] + query[1..];
    }
  }

  /** The query in canonical order. */
  function Canonical(query: seq<Param>): seq<Param> {
    Sort(ParamLe, query)
  }

  /** Canonicalisation is idempotent. */
  lemma CanonicalIdempotent(query: seq<Param>)
    ensures Canonical(Canonical(query)) == Canonical(query)
  {
    ParamLeIsTotalOrder();
    SortSorts(ParamLe, query);
    SortSorts(ParamLe, Canonical(query));
    SortedUnique(ParamLe, Canonical(Canonical(query)), Canonical(query));
  }

  /** Two queries share a cache key exactly when they carry the same pairs the same
      number of times, in whatever order. */
  lemma SameKeyIffSameParams(a: seq<Param>, b: seq<Param>)
    ensures Canonical(a) == Canonical(b) <==> multiset(a) == multiset(b)
  {
    ParamLeIsTotalOrder();
    SortSorts(ParamLe, a);
    SortSorts(ParamLe, b);
    if multiset(a) == multiset(b) {
      SortedUnique(ParamLe, Canonical(a), Canonical(b));
    }
  }

  /** The values of a key in the canonical query are its values, sorted. */
  lemma CanonicalValues(query: seq<Param>, key: string)
    ensures Values(Canonical(query), key) == Sort(StrLe, Values(query, key))
  {
    StrLeIsTotalOrder();
    ParamLeIsTotalOrder();
    SortSorts(ParamLe, query);
    SortSorts(StrLe, Values(query, key));
    ValuesOfSorted(Canonical(query), key);
    forall v: string ensures multiset(Values(Canonical(query), key))[v] == multiset(Values(query, key))[v] {
      ValuesCount(Canonical(query), Param(key, v));
      ValuesCount(query, Param(key, v));
    }
    SortedUnique(StrLe, Values(Canonical(query), key), Sort(StrLe, Values(query, key)));
  }

  lemma {:induction false} ValuesOfSorted(query: seq<Param>, key: string)
    requires Sorted(ParamLe, query)
    ensures Sorted(StrLe, Values(query, key))
  {
    if query != [] {
      ValuesOfSorted(query[1..], key);
      if query[0].key == key {
        forall v | v in Values(query[1..], key) ensures StrLe(query[0].value, v) {
          ValuesCount(query[1..], Param(key, v));
          assert Param(key, v) in query[1..];
        }
      }
    }
  }

  /** url.Values.Get: the first value of the key, or the empty text. */
  function FirstValue(query: seq<Param>, key: string): string {
    var values := Values(query, key);
    if values == [] then "" else values[0]
  }

  predicate FirstIsLeast(values: seq<string>) {
    forall v :: v in values ==> StrLe(values[0], v)
  }

  /** Canonicalising a query makes the least value of every key its first value, so the
      first value survives exactly when it was the least. */
  lemma FirstValueSurvives(query: seq<Param>, key: string)
    ensures Values(query, key) != [] ==>
      && FirstValue(Canonical(query), key) in Values(query, key)
      && forall v :: v in Values(query, key) ==> StrLe(FirstValue(Canonical(query), key), v)
    ensures FirstValue(Canonical(query), key) == FirstValue(query, key) <==> FirstIsLeast(Values(query, key))
  {
    var values := Values(query, key);
    var sorted := Sort(StrLe, values);
    CanonicalValues(query, key);
    SortStrings(values);
    StrLeIsTotalOrder();
    assert |sorted| == |multiset(sorted)| == |multiset(values)| == |values|;
    if values != [] {
      assert sorted[0] in multiset(values);
      forall v | v in values ensures StrLe(sorted[0], v) {
        assert v in multiset(sorted);
        assert StrLe(v, v);
      }
    }
  }

  /** The pairs of one key. */
  function Pairs(key: string, values: seq<string>): (r: seq<Param>)
    ensures |r| == |values|
    ensures forall i :: 0 <= i < |r| ==> r[i] == Param(key, values[i])
  {
    if values == [] then [] else [Param(key, values[0])] + Pairs(key, values[1..])
  }

  lemma {:induction false} PairsCount(key: string, values: seq<string>, p: Param)
    ensures multiset(Pairs(key, values))[p] == if p.key == key then multiset(values)[p.value] else 0
  {
    if values != [] {
      PairsCount(key, values[1..], p);
      assert values == [values[0]] + values[1..];
    }
  }

  /** url.Values.Encode over keys already in order. */
  function Encode(keys: seq<string>, params: map<string, seq<string>>): seq<Param>
    requires forall k :: k in keys ==> k in params
  {
    if keys == [] then [] else Pairs(keys[0], params[keys[0]]) + Encode(keys[1..], params)
  }

  predicate Distinct(keys: seq<string>) {
    forall a, b :: 0 <= a < b < |keys| ==> keys[a] != keys[b]
  }

  lemma {:induction false} DistinctCountsOnce(keys: seq<string>)
    requires Distinct(keys)
    ensures forall k :: k in keys ==> multiset(keys)[k] == 1
  {
    if keys != [] {
      DistinctCountsOnce(keys[1..]);
      assert keys == [keys[0]] + keys[1..];
      assert keys[0] !in keys[1..];
    }
  }

  lemma {:induction false} CountOnceDistinct(keys: seq<string>)
    requires forall k :: k in keys ==> multiset(keys)[k] == 1
    ensures Distinct(keys)
  {
    if keys != [] {
      assert keys == [keys[0]] + keys[1..];
      assert multiset(keys)[keys[0]] == 1;
      assert keys[0] !in multiset(keys[1..]);
      forall k | k in keys[1..] ensures multiset(keys[1..])[k] == 1 {
        assert k in keys;
      }
      CountOnceDistinct(keys[1..]);
    }
  }

  lemma SortKeepsMembers(keys: seq<string>)
    requires Distinct(keys)
    ensures Distinct(Sort(StrLe, keys))
    ensures forall k :: k in Sort(StrLe, keys) <==> k in keys
  {
    StrLeIsTotalOrder();
    SortSorts(StrLe, keys);
    DistinctCountsOnce(keys);
    forall k ensures k in Sort(StrLe, keys) <==> k in keys {
      assert k in multiset(Sort(StrLe, keys)) <==> k in multiset(keys);
    }
    CountOnceDistinct(Sort(StrLe, keys));
  }

  lemma {:induction false} EncodeKeys(keys: seq<string>, params: map<string, seq<string>>)
    requires forall k :: k in keys ==> k in params
    ensures forall p :: p in Encode(keys, params) ==> p.key in keys
  {
    if keys != [] {
      EncodeKeys(keys[1..], params);
    }
  }

  lemma {:induction false} EncodeSorted(keys: seq<string>, params: map<string, seq<string>>)
    requires forall k :: k in keys ==> k in params && Sorted(StrLe, params[k])
    requires Sorted(StrLe, keys) && Distinct(keys)
    ensures Sorted(ParamLe, Encode(keys, params))
  {
    if keys != [] {
      EncodeSorted(keys[1..], params);
      EncodeKeys(keys[1..], params);
      var head, tail := Pairs(keys[0], params[keys[0]]), Encode(keys[1..], params);
      forall p, q | p in head && q in tail ensures ParamLe(p, q) {
        assert q.key in keys[1..];
      }
    }
  }

  lemma {:induction false} EncodeCount(keys: seq<string>, params: map<string, seq<string>>, p: Param)
    requires forall k :: k in keys ==> k in params
    requires Distinct(keys)
    ensures multiset(Encode(keys, params))[p]
         == if p.key in keys then multiset(params[p.key])[p.value] else 0
  {
    if keys != [] {
      EncodeCount(keys[1..], params, p);
      PairsCount(keys[0], params[keys[0]], p);
    }
  }

  /** The groups of a query: every key's values, and the keys in order of appearance. */
  ghost predicate Groups(query: seq<Param>, params: map<string, seq<string>>, keys: seq<string>) {
    && Distinct(keys)
    && (forall k :: k in params <==> k in keys)
    && (forall k :: k in params ==> params[k] == Values(query, k))
    && (forall p :: p in query ==> p.key in params)
  }

  lemma GroupsSnoc(query: seq<Param>, p: Param, params: map<string, seq<string>>, keys: seq<string>)
    requires Groups(query, params, keys)
    ensures p.key in params ==> Groups(query + [p], params[p.key := params[p.key] + [p.value]], keys)
    ensures p.key !in params ==> Groups(query + [p], params[p.key := [p.value]], keys + [p.key])
  {
    forall k ensures Values(query + [p], k) == Values(query, k) + (if p.key == k then [p.value] else []) {
      ValuesAppend(query, [p], k);
    }
    if p.key !in params {
      NoValues(query, p.key);
    }
  }

  lemma {:induction false} NoValues(query: seq<Param>, key: string)
    requires forall p :: p in query ==> p.key != key
    ensures Values(query, key) == []
  {
    if query != [] {
      NoValues(query[1..], key);
    }
  }

  /** URL.Query(): a map from keys to value lists. */
  method GroupByKey(query: seq<Param>) returns (params: map<string, seq<string>>, keys: seq<string>)
    ensures Groups(query, params, keys)
  {
    params, keys := map[], [];
    for i := 0 to |query|
      invariant Groups(query[..i], params, keys)
    {
      var p := query[i];
      assert query[..i + 1] == query[..i] + [p];
      GroupsSnoc(query[..i], p, params, keys);
      if p.key in params {
        params := params[p.key := params[p.key] + [p.value]];
      } else {
        params := params[p.key := [p.value]];
        keys := keys + [p.key];
      }
    }
    assert query[..|query|] == query;
  }

  lemma SortStrings(values: seq<string>)
    ensures Sorted(StrLe, Sort(StrLe, values))
    ensures multiset(Sort(StrLe, values)) == multiset(values)
  {
    StrLeIsTotalOrder();
    SortSorts(StrLe, values);
  }

  /** The loop that sorts every value list. */
  method SortValues(params: map<string, seq<string>>, keys: seq<string>) returns (sorted: map<string, seq<string>>)
    requires forall k :: k in params <==> k in keys
    ensures sorted.Keys == params.Keys
    ensures forall k :: k in params ==> Sorted(StrLe, sorted[k]) && multiset(sorted[k]) == multiset(params[k])
  {
    sorted := params;
    for i := 0 to |keys|
      invariant sorted.Keys == params.Keys
      invariant forall k :: k in params ==> multiset(sorted[k]) == multiset(params[k])
      invariant SortedUpTo(sorted, keys, i)
    {
      var key := keys[i];
      var values := Sort(StrLe, sorted[key]);
      SortStrings(sorted[key]);
      SortsOneMore(sorted, keys, i, values);
      sorted := sorted[key := values];
    }
    forall k | k in params ensures Sorted(StrLe, sorted[k]) {
      var j :| 0 <= j < |keys| && keys[j] == k;
    }
  }

  /** The lists of the first n keys are sorted. */
  predicate SortedUpTo(params: map<string, seq<string>>, keys: seq<string>, n: int)
    requires n <= |keys|
  {
    forall j :: 0 <= j < n ==> keys[j] in params && Sorted(StrLe, params[keys[j]])
  }

  lemma SortsOneMore(params: map<string, seq<string>>, keys: seq<string>, n: nat, values: seq<string>)
    requires n < |keys| && SortedUpTo(params, keys, n) && Sorted(StrLe, values)
    ensures SortedUpTo(params[keys[n] := values], keys, n + 1)
  {
  }

  /** Writing sorted groups back in key order is sorting the pairs. */
  lemma EncodedGroupsAreCanonical(
    query: seq<Param>, params: map<string, seq<string>>, keys: seq<string>, sorted: map<string, seq<string>>)
    requires Groups(query, params, keys)
    requires sorted.Keys == params.Keys
    requires forall k :: k in params ==> Sorted(StrLe, sorted[k]) && multiset(sorted[k]) == multiset(params[k])
    ensures forall k :: k in Sort(StrLe, keys) ==> k in sorted
    ensures Encode(Sort(StrLe, keys), sorted) == Canonical(query)
  {
    StrLeIsTotalOrder();
    ParamLeIsTotalOrder();
    SortSorts(StrLe, keys);
    SortKeepsMembers(keys);
    var ordered := Sort(StrLe, keys);
    var encoded := Encode(ordered, sorted);
    EncodeSorted(ordered, sorted);
    forall p: Param ensures multiset(encoded)[p] == multiset(query)[p] {
      EncodedCount(query, params, keys, sorted, ordered, p);
    }
    SortSorts(ParamLe, query);
    SortedUnique(ParamLe, encoded, Canonical(query));
  }

  lemma EncodedCount(query: seq<Param>, params: map<string, seq<string>>, keys: seq<string>,
                     sorted: map<string, seq<string>>, ordered: seq<string>, p: Param)
    requires Groups(query, params, keys) && sorted.Keys == params.Keys
    requires forall k :: k in params ==> multiset(sorted[k]) == multiset(params[k])
    requires Distinct(ordered) && forall k :: k in ordered <==> k in keys
    ensures multiset(Encode(ordered, sorted))[p] == multiset(query)[p]
  {
    EncodeCount(ordered, sorted, p);
    ValuesCount(query, p);
    if p.key !in keys {
      NoValues(query, p.key);
    }
  }

  class RequestUrl {
    var rawQuery: seq<Param>

    constructor (query: seq<Param>)
      ensures rawQuery == query
    {
      rawQuery := query;
    }

    /** Group by key, sort every group, write the groups back in key order: the same
        as sorting the pairs. */
    method SortURLParams()
      modifies this
      ensures rawQuery == Canonical(old(rawQuery))
    {
      var params, keys := GroupByKey(rawQuery);
      var sorted := SortValues(params, keys);
      EncodedGroupsAreCanonical(rawQuery, params, keys, sorted);
      rawQuery := Encode(Sort(StrLe, keys), sorted);
    }
  }
}
