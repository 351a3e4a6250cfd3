/** The path language of the service metadata watcher
    (pkg/client/controllers/servicemetadatawatcher_controller.go, parsePath). */
module PathSyntax {
  import opened Common

  datatype Token = Field(name: string) | Bracket(body: string)

  predicate NameChar(c: char) {
    c != '.' && c != '['
  }

  /** What the two alternatives of the path expression can match. */
  predicate ValidToken(t: Token) {
    match t
    case Field(name) => name != [] && forall i :: 0 <= i < |name| ==> NameChar(name[i])
    case Bracket(body) => ']' !in body && '\n' !in body
  }

  predicate ValidTokens(ts: seq<Token>) {
    forall t :: t in ts ==> ValidToken(t)
  }

  function TokenText(t: Token): string {
    match t
    case Field(name) => name
    case Bracket(body) => "[" + body + "]"
  }

  function Texts(ts: seq<Token>): seq<string> {
    Map(TokenText, ts)
  }

  /** The position of the first `]`, if no line break comes before it. */
  function BracketEnd(s: string): (r: Option<nat>)
    ensures r.Some? ==> r.value < |s| && s[r.value] == ']' && ']' !in s[..r.value] && '\n' !in s[..r.value]
  {
    if s == [] || s[0] == '\n' then None
    else if s[0] == ']' then Some(0)
    else
      var r := BracketEnd(s[1..]);
      if r.None? then None
      else
        assert s[..r.value + 1] == [s[0]] + s[1..][..r.value];
        Some(r.value + 1)
  }

  /** All successive matches, skipping characters at which none starts. */
  function Tokenize(s: string): seq<string>
    decreases |s|
  {
    if s == [] then []
    else if s[0] == '.' then Tokenize(s[1..])
    else if s[0] == '[' then
      var end := BracketEnd(s[1..]);
      if end.None? then Tokenize(s[1..])
      else [s[..end.value + 2]] + Tokenize(s[end.value + 2..])
    else
      var n := RunLength(NameChar, s);
      [s[..n]] + Tokenize(s[n..])
  }

  function ParsePath(s: string): Option<seq<string>> {
    if Tokenize(s) == [] then None else Some(Tokenize(s))
  }

  /** Names after the first token are preceded by a dot. */
  function RenderRest(ts: seq<Token>): string {
    if ts == [] then []
    else
      var text := TokenText(ts[0]) + RenderRest(ts[1..]);
      if ts[0].Field? then "." + text else text
  }

  function Render(ts: seq<Token>): string {
    if ts == [] then [] else TokenText(ts[0]) + RenderRest(ts[1..])
  }

  lemma {:induction false} EndOfBracket(body: string, rest: string)
    requires ']' !in body && '\n' !in body
    ensures BracketEnd(body + "]" + rest) == Some(|body|)
  {
    var s := body + "]" + rest;
    if body == [] {
      assert s == "]" + rest;
    } else {
      assert s[0] == body[0] && s[0] in body;
      assert s[1..] == body[1..] + "]" + rest;
      EndOfBracket(body[1..], rest);
    }
  }

  /** Reading one rendered token off the front. */
  lemma TokenizeOne(t: Token, rest: string)
    requires ValidToken(t)
    requires rest == [] || !NameChar(rest[0]) || t.Bracket?
    ensures Tokenize(TokenText(t) + rest) == [TokenText(t)] + Tokenize(rest)
  {
    match t
    case Field(name) =>
      var s := name + rest;
      RunOfPrefix(NameChar, name, rest);
      assert s[..|name|] == name && s[|name|..] == rest;
      assert s[0] == name[0] && NameChar(s[0]);
    case Bracket(body) => TokenizeBracket(body, rest);
  }

  lemma TokenizeBracket(body: string, rest: string)
    requires ']' !in body && '\n' !in body
    ensures Tokenize("[" + body + "]" + rest) == ["[" + body + "]"] + Tokenize(rest)
  {
    var text := "[" + body + "]";
    var s := text + rest;
    assert s[1..] == body + "]" + rest;
    EndOfBracket(body, rest);
    assert s[..|body| + 2] == text && s[|body| + 2..] == rest;
  }

  lemma RestStartsClean(ts: seq<Token>)
    ensures RenderRest(ts) == [] || !NameChar(RenderRest(ts)[0])
  {
  }

  lemma DotSkipped(s: string)
    ensures Tokenize("." + s) == Tokenize(s)
  {
    assert ("." + s)[1..] == s;
  }

  lemma {:induction false} TokenizeRest(ts: seq<Token>)
    requires ValidTokens(ts)
    ensures Tokenize(RenderRest(ts)) == Texts(ts)
  {
    if ts != [] {
      var t, rest := ts[0], ts[1..];
      var text := TokenText(t) + RenderRest(rest);
      assert t in ts && ValidTokens(rest);
      RestStartsClean(rest);
      TokenizeRest(rest);
      TokenizeOne(t, RenderRest(rest));
      DotSkipped(text);
      assert RenderRest(ts) == if t.Field? then "." + text else text;
      MapCons(TokenText, ts);
    }
  }

  /** parsePath of a rendered token list gives the list back. */
  lemma PathRoundTrip(ts: seq<Token>)
    requires ValidTokens(ts)
    ensures Tokenize(Render(ts)) == Texts(ts)
    ensures ts != [] ==> ParsePath(Render(ts)) == Some(Texts(ts))
  {
    if ts != [] {
      assert ts[0] in ts;
      RestStartsClean(ts[1..]);
      TokenizeRest(ts[1..]);
      TokenizeOne(ts[0], RenderRest(ts[1..]));
      assert Texts(ts) == [TokenText(ts[0])] + Texts(ts[1..]);
    }
  }

  /** Every path, however written, is read as some valid token list. */
  lemma {:induction false} TokenizeIsTexts(s: string) returns (ts: seq<Token>)
    ensures ValidTokens(ts) && Texts(ts) == Tokenize(s)
    decreases |s|
  {
    if s == [] {
      ts := [];
    } else if s[0] == '.' {
      ts := TokenizeIsTexts(s[1..]);
    } else if s[0] == '[' {
      var end := BracketEnd(s[1..]);
      if end.None? {
        ts := TokenizeIsTexts(s[1..]);
      } else {
        var rest := TokenizeIsTexts(s[end.value + 2..]);
        var t := Bracket(s[1..][..end.value]);
        assert TokenText(t) == s[..end.value + 2];
        ts := [t] + rest;
        MapCons(TokenText, ts);
        assert ts[1..] == rest;
      }
    } else {
      var n := RunLength(NameChar, s);
      var rest := TokenizeIsTexts(s[n..]);
      ts := [Field(s[..n])] + rest;
      MapCons(TokenText, ts);
      assert ts[1..] == rest;
    }
  }

  /** A path without brackets is read as its parts between dots, the empty ones left out. */
  lemma {:induction false} NamesArePartsBetweenDots(s: string)
    requires '[' !in s
    ensures Tokenize(s) == Filter((part: string) => part != "", Split(s, '.'))
    decreases |s|
  {
    var full := (part: string) => part != "";
    if s == [] {
      assert Split(s, '.') == [""] && Filter(full, [""]) == [];
    } else if s[0] == '.' {
      NamesArePartsBetweenDots(s[1..]);
      assert Split(s, '.')[1..] == Split(s[1..], '.');
    } else {
      var n := RunLength(NameChar, s);
      var name, rest := s[..n], s[n..];
      assert name != "" && '.' !in name;
      if rest == [] {
        assert name == s;
        SplitWhole(s, '.');
        assert Filter(full, [s][1..]) == [] && Tokenize(rest) == [];
      } else {
        assert s == name + ['.'] + rest[1..];
        SplitFront(name, rest[1..], '.');
        NamesArePartsBetweenDots(rest[1..]);
        assert Split(s, '.')[1..] == Split(rest[1..], '.');
      }
    }
  }

  /** A path is refused exactly when it consists of dots and opening brackets only. */
  lemma {:induction false} RefusedIff(s: string)
    ensures ParsePath(s).None? <==> forall i :: 0 <= i < |s| ==> s[i] == '.' || s[i] == '['
    decreases |s|
  {
    if s != [] {
      assert s == [s[0]] + s[1..];
      RefusedIff(s[1..]);
    }
  }
}

/** The resolver of those paths, getNestedString. */
module PathResolution {
  import opened Common
  import opened Decimal
  import opened PathSyntax

  /** An unstructured document; a float is represented by its printed form. */
  datatype Value =
    | Str(text: string)
    | Bool(b: bool)
    | Int(n: int)
    | Float(printed: string)
    | Null
    | List(items: seq<Value>)
    | Dict(fields: map<string, Value>)

  predicate Scalar(v: Value) {
    v.Str? || v.Bool? || v.Int? || v.Float?
  }

  function Show(v: Value): string
    requires Scalar(v)
  {
    match v
    case Str(s) => s
    case Bool(b) => if b then "true" else "false"
    case Int(n) => FormatInt(n)
    case Float(p) => p
  }

  /** unstructured.NestedFieldNoCopy; both kinds of failure are `None`. */
  function Nested(v: Value, fields: seq<string>): Option<Value> {
    if fields == [] then Some(v)
    else if v.Dict? && fields[0] in v.fields then Nested(v.fields[fields[0]], fields[1..])
    else None
  }

  datatype Outcome = Rendered(text: string) | Error | Panic

  predicate IsBracket(key: string) {
    |key| >= 2 && key[0] == '[' && key[|key| - 1] == ']'
  }

  function Body(key: string): string
    requires IsBracket(key)
  {
    key[1..|key| - 1]
  }

  /** A negative index counts from the end. */
  function ItemAt(items: seq<Value>, body: string): Option<Value> {
    var n := Atoi(body);
    if n.None? then None
    else
      var index := if n.value < 0 then |items| + n.value else n.value;
      if 0 <= index < |items| then Some(items[index]) else None
  }

  /** The end of the function, when no bracket has led further: a type assertion on
      anything but a map panics, and so does asking for the type of nil. */
  function Finish(v: Value, path: seq<string>): Outcome {
    match v
    case Str(s) => Rendered(s)
    case Bool(_) => Rendered(Show(v))
    case Dict(_) =>
      var leaf := Nested(v, path);
      if leaf.Some? && Scalar(leaf.value) then Rendered(Show(leaf.value)) else Error
    case _ => Panic
  }

  function Get(v: Value, path: seq<string>): Outcome
    decreases |path|, |path| + 1
  {
    Scan(v, path, 0, [])
  }

  /** The loop over the path from position i, with the names collected in cpath. */
  function Scan(v: Value, path: seq<string>, i: nat, cpath: seq<string>): Outcome
    requires i <= |path|
    decreases |path|, |path| - i
  {
    if i == |path| then Finish(v, path)
    else if !IsBracket(path[i]) then Scan(v, path, i + 1, cpath + [path[i]])
    else if !v.Dict? then Panic
    else
      var at := Nested(v, cpath);
      if at.Some? && at.value.List? then
        var item := ItemAt(at.value.items, Body(path[i]));
        if item.None? then Error else Get(item.value, path[i + 1..])
      else if at.Some? && at.value.Dict? then
        var k := Body(path[i]);
        if k in at.value.fields then Get(at.value.fields[k], path[i + 1..]) else Error
      else Scan(v, path, i + 1, cpath)
  }

  method GetNestedString(v: Value, path: seq<string>) returns (r: Outcome)
    ensures r == Get(v, path)
    decreases |path|
  {
    var cpath: seq<string> := [];
    for i := 0 to |path|
      invariant Scan(v, path, i, cpath) == Get(v, path)
    {
      var key := path[i];
      if IsBracket(key) {
        if !v.Dict? {
          return Panic;
        }
        var k := key[1..|key| - 1];
        var at := Nested(v, cpath);
        if at.Some? && at.value.List? {
          var items := at.value.items;
          var n := Atoi(k);
          if n.None? {
            return Error;
          }
          var index := n.value;
          if index < 0 {
            index := |items| + index;
          }
          if index >= |items| || index < 0 {
            return Error;
          }
          r := GetNestedString(items[index], path[i + 1..]);
          return;
        }
        if at.Some? && at.value.Dict? {
          if k !in at.value.fields {
            return Error;
          }
          r := GetNestedString(at.value.fields[k], path[i + 1..]);
          return;
        }
      } else {
        cpath := cpath + [key];
      }
    }
    return Finish(v, path);
  }

  // ---- The naive walk ---------------------------------------------------------------------

  /** One token: a name enters a map, a bracket enters a list by index or a map by key. */
  function Next(v: Value, t: Token): Option<Value> {
    match t
    case Field(name) => if v.Dict? && name in v.fields then Some(v.fields[name]) else None
    case Bracket(body) =>
      if v.List? then ItemAt(v.items, body)
      else if v.Dict? && body in v.fields then Some(v.fields[body])
      else None
  }

  function Walk(v: Value, ts: seq<Token>): Option<Value> {
    if ts == [] then Some(v)
    else
      var next := Next(v, ts[0]);
      if next.None? then None else Walk(next.value, ts[1..])
  }

  /** Where the resolver panics on a walk that succeeds: a list reached by a bracket is
      indexed again, or a number is reached by a bracket. */
  predicate Panics(v: Value, ts: seq<Token>, afterBracket: bool) {
    if ts == [] then afterBracket && !v.Str? && !v.Bool?
    else
      || (afterBracket && v.List?)
      || (Next(v, ts[0]).Some? && Panics(Next(v, ts[0]).value, ts[1..], ts[0].Bracket?))
  }

  function LeadingFields(ts: seq<Token>): (n: nat)
    ensures n <= |ts|
    ensures forall i :: 0 <= i < n ==> ts[i].Field?
    ensures n < |ts| ==> ts[n].Bracket?
  {
    if ts == [] || ts[0].Bracket? then 0 else 1 + LeadingFields(ts[1..])
  }

  lemma BracketText(t: Token)
    requires ValidToken(t)
    ensures IsBracket(TokenText(t)) <==> t.Bracket?
    ensures t.Bracket? ==> Body(TokenText(t)) == t.body
  {
  }

  /** The loop collects the leading names. */
  lemma {:induction false} ScanLeading(v: Value, ts: seq<Token>, i: nat)
    requires ValidTokens(ts) && i <= LeadingFields(ts)
    ensures Get(v, Texts(ts)) == Scan(v, Texts(ts), i, Texts(ts)[..i])
  {
    if i == 0 {
      assert Texts(ts)[..0] == [];
    } else {
      ScanLeading(v, ts, i - 1);
      assert ts[i - 1] in ts;
      BracketText(ts[i - 1]);
      assert Texts(ts)[..i] == Texts(ts)[..i - 1] + [Texts(ts)[i - 1]];
    }
  }

  /** A walk over names is a nested-field lookup. */
  lemma {:induction false} WalkNames(v: Value, ts: seq<Token>, n: nat)
    requires n <= LeadingFields(ts)
    ensures Walk(v, ts[..n]) == Nested(v, Texts(ts)[..n])
  {
    if n > 0 {
      assert ts[..n][1..] == ts[1..][..n - 1];
      assert Texts(ts)[..n][1..] == Texts(ts[1..])[..n - 1];
      if Next(v, ts[0]).Some? {
        WalkNames(Next(v, ts[0]).value, ts[1..], n - 1);
      }
    }
  }

  lemma {:induction false} WalkSplits(v: Value, ts: seq<Token>, n: nat)
    requires n <= |ts|
    ensures Walk(v, ts) == if Walk(v, ts[..n]).Some? then Walk(Walk(v, ts[..n]).value, ts[n..]) else None
  {
    if n > 0 {
      assert ts[..n][1..] == ts[1..][..n - 1];
      assert ts[n..] == ts[1..][n - 1..];
      if Next(v, ts[0]).Some? {
        WalkSplits(Next(v, ts[0]).value, ts[1..], n - 1);
      }
    } else {
      assert ts[0..] == ts;
    }
  }

  lemma {:induction false} PanicsNames(v: Value, ts: seq<Token>, n: nat, afterBracket: bool)
    requires v.Dict? && n <= LeadingFields(ts) && Walk(v, ts[..n]).Some?
    ensures var u := Walk(v, ts[..n]).value;
      Panics(v, ts, afterBracket) <==> Panics(u, ts[n..], if n == 0 then afterBracket else false)
    decreases n
  {
    if n > 0 {
      var rest := ts[1..];
      assert ts[..n][1..] == rest[..n - 1];
      assert ts[n..] == rest[n - 1..];
      var u := Next(v, ts[0]).value;
      if n > 1 {
        assert rest[..n - 1] != [];
        assert u.Dict?;
        PanicsNames(u, rest, n - 1, false);
      } else {
        assert rest[..0] == [] && rest[0..] == rest;
      }
    } else {
      assert ts[..0] == [] && ts[0..] == ts;
    }
  }

  /** Path resolution refines the plain walk: whenever the token-by-token walk from a
      map (or from wherever a bracket led) reaches a scalar, the resolver prints it, or
      panics in exactly the two cases of Panics. */
  lemma {:induction false} ResolvesAsWalk(v: Value, ts: seq<Token>, afterBracket: bool)
    requires ValidTokens(ts) && (v.Dict? || afterBracket)
    requires Walk(v, ts).Some? && Scalar(Walk(v, ts).value)
    ensures Get(v, Texts(ts)) ==
      if Panics(v, ts, afterBracket) then Panic else Rendered(Show(Walk(v, ts).value))
    decreases |ts|
  {
    var n := LeadingFields(ts);
    var path := Texts(ts);
    ScanLeading(v, ts, n);
    if !v.Dict? {
      assert n == 0;
      if ts != [] {
        assert ts[0] in ts;
        BracketText(ts[0]);
      }
    } else {
      WalkNames(v, ts, n);
      WalkSplits(v, ts, n);
      PanicsNames(v, ts, n, afterBracket);
      if n == |ts| {
        assert path[..n] == path && ts[..n] == ts && ts[n..] == [];
      } else {
        var u := Walk(v, ts[..n]).value;
        assert ts[n] in ts;
        BracketText(ts[n]);
        assert ts[n..][0] == ts[n] && ts[n..][1..] == ts[n + 1..];
        var next := Next(u, ts[n]).value;
        assert Texts(ts[n + 1..]) == path[n + 1..];
        ResolvesAsWalk(next, ts[n + 1..], true);
      }
    }
  }

  // ---- Nothing else is printed ---------------------------------------------------------------

  lemma {:induction false} NestedAppend(v: Value, a: seq<string>, b: seq<string>)
    ensures Nested(v, a + b) == if Nested(v, a).Some? then Nested(Nested(v, a).value, b) else None
  {
    if a == [] {
      assert a + b == b;
    } else {
      assert (a + b)[1..] == a[1..] + b;
      if v.Dict? && a[0] in v.fields {
        NestedAppend(v.fields[a[0]], a[1..], b);
      }
    }
  }

  /** Once the collected names lead to neither a list nor a map, all that follows fails. */
  lemma {:induction false} DeadEnd(v: Value, path: seq<string>, i: nat, cpath: seq<string>, n: nat)
    requires v.Dict? && n < i <= |path| && path[..n] <= cpath
    requires Nested(v, path[..n]).None? || Scalar(Nested(v, path[..n]).value) || Nested(v, path[..n]).value.Null?
    ensures Scan(v, path, i, cpath) == Error
    decreases |path| - i
  {
    assert cpath == path[..n] + cpath[n..];
    NestedAppend(v, path[..n], cpath[n..]);
    assert path == path[..n] + path[n..];
    NestedAppend(v, path[..n], path[n..]);
    if i < |path| {
      if !IsBracket(path[i]) {
        assert path[..n] <= cpath + [path[i]];
        DeadEnd(v, path, i + 1, cpath + [path[i]], n);
      } else {
        DeadEnd(v, path, i + 1, cpath, n);
      }
    }
  }

  /** The text is the leaf that the plain walk over the first `used` tokens reaches
      without a panic. These are all the tokens, or only names follow, and then the leaf
      is the document itself or was reached by a bracket. */
  predicate PrintedFrom(v: Value, ts: seq<Token>, text: string, used: int) {
    && 0 <= used <= |ts|
    && var leaf := Walk(v, ts[..used]);
    && leaf.Some? && Scalar(leaf.value) && Show(leaf.value) == text
    && !Panics(v, ts[..used], true)
    && (used < |ts| ==> (used == 0 || ts[used - 1].Bracket?) && forall i :: used <= i < |ts| ==> ts[i].Field?)
  }

  /** The recursive call: past the first bracket the resolver starts afresh. */
  lemma GetThroughBracket(v: Value, ts: seq<Token>, n: nat)
    requires ValidTokens(ts) && v.Dict? && n == LeadingFields(ts) < |ts|
    requires Walk(v, ts[..n]).Some? && Next(Walk(v, ts[..n]).value, ts[n]).Some?
    ensures Get(v, Texts(ts)) == Get(Next(Walk(v, ts[..n]).value, ts[n]).value, Texts(ts[n + 1..]))
  {
    var path := Texts(ts);
    ScanLeading(v, ts, n);
    WalkNames(v, ts, n);
    assert ts[n] in ts;
    BracketText(ts[n]);
    assert path[n] == TokenText(ts[n]) && Texts(ts[n + 1..]) == path[n + 1..];
    ScanAtBracket(v, path, n, path[..n], ts[n].body);
  }

  lemma ScanAtBracket(v: Value, path: seq<string>, i: nat, cpath: seq<string>, body: string)
    requires v.Dict? && i < |path| && IsBracket(path[i]) && Body(path[i]) == body
    requires Nested(v, cpath).Some? && Next(Nested(v, cpath).value, Bracket(body)).Some?
    ensures Scan(v, path, i, cpath) == Get(Next(Nested(v, cpath).value, Bracket(body)).value, path[i + 1..])
  {
  }

  lemma WalkThrough(v: Value, ts: seq<Token>, n: nat, used: nat)
    requires n < |ts| && used <= |ts| - n - 1
    requires Walk(v, ts[..n]).Some? && Next(Walk(v, ts[..n]).value, ts[n]).Some?
    ensures Walk(v, ts[..n + 1 + used])
         == Walk(Next(Walk(v, ts[..n]).value, ts[n]).value, ts[n + 1..][..used])
  {
    var part := ts[..n + 1 + used];
    WalkSplits(v, part, n);
    assert part[..n] == ts[..n];
    assert part[n..][0] == ts[n] && part[n..][1..] == ts[n + 1..][..used];
  }

  lemma PanicsThrough(v: Value, ts: seq<Token>, n: nat, used: nat)
    requires v.Dict? && n == LeadingFields(ts) < |ts| && used <= |ts| - n - 1
    requires Walk(v, ts[..n]).Some? && Next(Walk(v, ts[..n]).value, ts[n]).Some?
    ensures Panics(v, ts[..n + 1 + used], true)
       <==> Panics(Next(Walk(v, ts[..n]).value, ts[n]).value, ts[n + 1..][..used], true)
  {
    var part := ts[..n + 1 + used];
    var u, tail := Walk(v, ts[..n]).value, part[n..];
    LeadingOfPrefix(ts, n + 1 + used);
    PrefixParts(ts, n, used);
    PanicsNames(v, part, n, true);
    assert n == 0 ==> ts[..n] == [];
    PanicsAtBracket(u, tail, n == 0);
  }

  lemma PrefixParts(ts: seq<Token>, n: nat, used: nat)
    requires n + 1 + used <= |ts|
    ensures
      var part := ts[..n + 1 + used];
      part[..n] == ts[..n] && part[n..][0] == ts[n] && part[n..][1..] == ts[n + 1..][..used]
  {
  }

  lemma PanicsAtBracket(u: Value, ts: seq<Token>, afterBracket: bool)
    requires ts != [] && ts[0].Bracket? && Next(u, ts[0]).Some? && (afterBracket ==> u.Dict?)
    ensures Panics(u, ts, afterBracket) <==> Panics(Next(u, ts[0]).value, ts[1..], true)
  {
  }

  lemma {:induction false} LeadingOfPrefix(ts: seq<Token>, k: nat)
    requires LeadingFields(ts) < k <= |ts|
    ensures LeadingFields(ts[..k]) == LeadingFields(ts)
  {
    if ts[0].Field? {
      assert ts[..k][1..] == ts[1..][..k - 1];
      LeadingOfPrefix(ts[1..], k - 1);
    }
  }

  /** What is printed comes from such a walk. */
  lemma {:induction false} PrintsOnlyWalks(v: Value, ts: seq<Token>, text: string)
    requires ValidTokens(ts) && Get(v, Texts(ts)) == Rendered(text)
    ensures exists used :: PrintedFrom(v, ts, text, used)
    decreases |ts|
  {
    var n := LeadingFields(ts);
    var path := Texts(ts);
    ScanLeading(v, ts, n);
    if n == |ts| {
      PrintsOnlyNames(v, ts, text);
    } else {
      assert ts[n] in ts;
      BracketText(ts[n]);
      WalkNames(v, ts, n);
      var at := Nested(v, path[..n]);
      if at.None? || Scalar(at.value) || at.value.Null? {
        DeadEnd(v, path, n + 1, path[..n], n);
      } else {
        var next := Next(at.value, ts[n]).value;
        GetThroughBracket(v, ts, n);
        PrintsOnlyWalks(next, ts[n + 1..], text);
        var used :| PrintedFrom(next, ts[n + 1..], text, used);
        PrintedThrough(v, ts, n, used, text);
      }
    }
  }

  lemma PrintsOnlyNames(v: Value, ts: seq<Token>, text: string)
    requires ValidTokens(ts) && LeadingFields(ts) == |ts| && Get(v, Texts(ts)) == Rendered(text)
    ensures exists used :: PrintedFrom(v, ts, text, used)
  {
    var n, path := |ts|, Texts(ts);
    ScanLeading(v, ts, n);
    assert path[..n] == path && ts[..n] == ts && ts[..0] == [] && ts[n..] == [];
    if v.Dict? {
      WalkNames(v, ts, n);
      PanicsNames(v, ts, n, true);
      assert PrintedFrom(v, ts, text, n);
    } else {
      assert PrintedFrom(v, ts, text, 0);
    }
  }

  lemma PrintedThrough(v: Value, ts: seq<Token>, n: nat, used: nat, text: string)
    requires v.Dict? && n == LeadingFields(ts) < |ts|
    requires Walk(v, ts[..n]).Some? && Next(Walk(v, ts[..n]).value, ts[n]).Some?
    requires used <= |ts| - n - 1
    ensures PrintedFrom(Next(Walk(v, ts[..n]).value, ts[n]).value, ts[n + 1..], text, used)
       <==> PrintedFrom(v, ts, text, n + 1 + used)
  {
    var rest := ts[n + 1..];
    WalkThrough(v, ts, n, used);
    PanicsThrough(v, ts, n, used);
    assert used > 0 ==> rest[used - 1] == ts[n + used];
    assert forall i :: used <= i < |rest| ==> rest[i] == ts[n + 1 + i];
    assert forall i :: n + 1 + used <= i < |ts| ==> ts[i] == rest[i - n - 1];
  }

  /** A text or boolean is printed whatever names follow. */
  lemma PrintedAtOnce(v: Value, ts: seq<Token>)
    requires ValidTokens(ts) && (v.Str? || v.Bool?) && forall i :: 0 <= i < |ts| ==> ts[i].Field?
    ensures Get(v, Texts(ts)) == Rendered(Show(v))
  {
    ScanLeading(v, ts, |ts|);
  }

  lemma WalkReachesBracket(v: Value, ts: seq<Token>, n: nat, used: nat)
    requires n == LeadingFields(ts) < used <= |ts|
    requires Walk(v, ts[..used]).Some? && !Panics(v, ts[..used], true)
    ensures v.Dict? && Walk(v, ts[..n]).Some? && Next(Walk(v, ts[..n]).value, ts[n]).Some?
  {
    var prefix := ts[..used];
    WalkSplits(v, prefix, n);
    assert prefix[..n] == ts[..n] && prefix[n..][0] == ts[n];
    assert prefix[0] == ts[0];
    if n == 0 {
      assert ts[..n] == [];
    }
  }

  /** And every such walk is printed. */
  lemma {:induction false} WalksArePrinted(v: Value, ts: seq<Token>, text: string, used: nat)
    requires ValidTokens(ts) && PrintedFrom(v, ts, text, used)
    ensures Get(v, Texts(ts)) == Rendered(text)
    decreases |ts|
  {
    var n := LeadingFields(ts);
    if used == |ts| {
      assert ts[..used] == ts;
      ResolvesAsWalk(v, ts, true);
    } else if used == 0 {
      PrintedAtOnce(v, ts);
      assert ts[..0] == [];
    } else {
      assert ts[used - 1].Bracket? && n < used;
      WalkReachesBracket(v, ts, n, used);
      var next, rest := Next(Walk(v, ts[..n]).value, ts[n]).value, ts[n + 1..];
      assert ValidTokens(rest);
      PrintedThrough(v, ts, n, used - n - 1, text);
      WalksArePrinted(next, rest, text, used - n - 1);
      GetThroughBracket(v, ts, n);
    }
  }

  /** The resolver prints exactly these leaves. */
  lemma PrintsIff(v: Value, ts: seq<Token>, text: string)
    requires ValidTokens(ts)
    ensures Get(v, Texts(ts)) == Rendered(text) <==> exists used :: PrintedFrom(v, ts, text, used)
  {
    if Get(v, Texts(ts)) == Rendered(text) {
      PrintsOnlyWalks(v, ts, text);
    } else if exists used :: PrintedFrom(v, ts, text, used) {
      var used :| PrintedFrom(v, ts, text, used);
      WalksArePrinted(v, ts, text, used);
    }
  }

  /** End to end, for every document, every well-formed path text and every result: the
      text resolves to that result exactly when it is the leaf of such a walk; and where
      the walk over all tokens reaches a scalar that is not printed, the resolver panics. */
  lemma PathTextResolves(fields: map<string, Value>, ts: seq<Token>, text: string)
    requires ValidTokens(ts) && ts != []
    ensures ParsePath(Render(ts)).Some?
    ensures
      var doc := Dict(fields);
      var r := Get(doc, ParsePath(Render(ts)).value);
      && (r == Rendered(text) <==> exists used :: PrintedFrom(doc, ts, text, used))
      && (Walk(doc, ts).Some? && Scalar(Walk(doc, ts).value) ==>
            r == if Panics(doc, ts, false) then Panic else Rendered(Show(Walk(doc, ts).value)))
  {
    var doc := Dict(fields);
    PathRoundTrip(ts);
    if Walk(doc, ts).Some? && Scalar(Walk(doc, ts).value) {
      ResolvesAsWalk(doc, ts, false);
    }
    PrintsIff(doc, ts, text);
  }

  // ---- Panics and errors ----------------------------------------------------------------------

  predicate HasBracket(ts: seq<Token>) {
    exists i :: 0 <= i < |ts| && ts[i].Bracket?
  }

  /** The resolver cannot start from the value: it is not a map, and either a bracket is
      still to come or it is not a text or boolean that could be printed. */
  predicate Blocks(u: Value, rest: seq<Token>) {
    !u.Dict? && (HasBracket(rest) || (!u.Str? && !u.Bool?))
  }

  /** The plain walk gets to such a value at the start or just after a bracket. */
  predicate PanicAt(v: Value, ts: seq<Token>, k: int) {
    && 0 <= k <= |ts| && (k == 0 || ts[k - 1].Bracket?)
    && Walk(v, ts[..k]).Some? && Blocks(Walk(v, ts[..k]).value, ts[k..])
  }

  lemma PanicThrough(v: Value, ts: seq<Token>, n: nat, k: nat)
    requires n == LeadingFields(ts) < |ts| && k <= |ts| - n - 1
    requires Walk(v, ts[..n]).Some? && Next(Walk(v, ts[..n]).value, ts[n]).Some?
    ensures PanicAt(v, ts, n + 1 + k) <==> PanicAt(Next(Walk(v, ts[..n]).value, ts[n]).value, ts[n + 1..], k)
  {
    var rest := ts[n + 1..];
    WalkThrough(v, ts, n, k);
    assert ts[n + 1 + k..] == rest[k..];
    assert k > 0 ==> rest[k - 1] == ts[n + k];
  }

  /** Where the walk cannot take the first bracket, it gets no further. */
  lemma NoPanicBeyond(v: Value, ts: seq<Token>, n: nat, k: nat)
    requires v.Dict? && n == LeadingFields(ts) < |ts|
    requires Walk(v, ts[..n]).None? || Next(Walk(v, ts[..n]).value, ts[n]).None?
    ensures !PanicAt(v, ts, k)
  {
    if k == 0 {
      assert ts[..0] == [];
    } else if PanicAt(v, ts, k) {
      assert n < k;
      WalkStops(v, ts, n, k);
    }
  }

  lemma WalkStops(v: Value, ts: seq<Token>, n: nat, k: nat)
    requires n < k <= |ts| && (Walk(v, ts[..n]).None? || Next(Walk(v, ts[..n]).value, ts[n]).None?)
    ensures Walk(v, ts[..k]).None?
  {
    var part := ts[..k];
    WalkSplits(v, part, n);
    assert part[..n] == ts[..n] && part[n..][0] == ts[n];
  }

  /** The resolver panics exactly where the plain walk gets to such a value; this covers
      walks that fail later, leaves that are no scalars and dead ends. Whatever is neither
      printed nor a panic is an error. */
  lemma {:induction false} PanicsIff(v: Value, ts: seq<Token>)
    requires ValidTokens(ts)
    ensures Get(v, Texts(ts)) == Panic <==> exists k :: PanicAt(v, ts, k)
    decreases |ts|
  {
    var n, path := LeadingFields(ts), Texts(ts);
    ScanLeading(v, ts, n);
    assert ts[..0] == [] && ts[0..] == ts;
    if n == |ts| {
      assert forall k :: 0 < k <= |ts| ==> !PanicAt(v, ts, k);
      assert PanicAt(v, ts, 0) <==> Get(v, path) == Panic;
    } else {
      assert ts[n] in ts;
      BracketText(ts[n]);
      if !v.Dict? {
        assert HasBracket(ts) && PanicAt(v, ts, 0);
      } else {
        PanicsIffFromMap(v, ts, n);
      }
    }
  }

  lemma PanicsIffFromMap(v: Value, ts: seq<Token>, n: nat)
    requires ValidTokens(ts) && v.Dict? && n == LeadingFields(ts) < |ts|
    ensures Get(v, Texts(ts)) == Panic <==> exists k :: PanicAt(v, ts, k)
    decreases |ts|, 0
  {
    var at := Walk(v, ts[..n]);
    if at.None? || Next(at.value, ts[n]).None? {
      StopsAtBracket(v, ts, n);
      forall k: nat ensures !PanicAt(v, ts, k) {
        NoPanicBeyond(v, ts, n, k);
      }
    } else {
      GetThroughBracket(v, ts, n);
      var next, rest := Next(at.value, ts[n]).value, ts[n + 1..];
      SomePanicThrough(v, ts, n, next, rest);
      PanicsIff(next, rest);
    }
  }

  lemma SomePanicThrough(v: Value, ts: seq<Token>, n: nat, next: Value, rest: seq<Token>)
    requires v.Dict? && n == LeadingFields(ts) < |ts| && rest == ts[n + 1..]
    requires Walk(v, ts[..n]).Some? && Next(Walk(v, ts[..n]).value, ts[n]) == Some(next)
    ensures (exists k :: PanicAt(v, ts, k)) <==> exists k :: PanicAt(next, rest, k)
  {
    if k :| PanicAt(v, ts, k) {
      assert ts[..0] == [];
      assert n < k;
      PanicThrough(v, ts, n, k - n - 1);
      assert PanicAt(next, rest, k - n - 1);
    }
    if k :| PanicAt(next, rest, k) {
      PanicThrough(v, ts, n, k);
      assert PanicAt(v, ts, n + 1 + k);
    }
  }

  /** From a map, a first bracket that leads nowhere is an error. */
  lemma StopsAtBracket(v: Value, ts: seq<Token>, n: nat)
    requires ValidTokens(ts) && v.Dict? && n == LeadingFields(ts) < |ts|
    requires Walk(v, ts[..n]).None? || Next(Walk(v, ts[..n]).value, ts[n]).None?
    ensures Get(v, Texts(ts)) == Error
  {
    var path := Texts(ts);
    ScanLeading(v, ts, n);
    WalkNames(v, ts, n);
    assert ts[n] in ts;
    BracketText(ts[n]);
    assert path[n] == TokenText(ts[n]);
    var at := Nested(v, path[..n]);
    if at.None? || Scalar(at.value) || at.value.Null? {
      DeadEnd(v, path, n + 1, path[..n], n);
    }
  }

  /** A step of the walk that finds nothing, a missing key, an index out of range or a text
      that is no index, is an error, provided that brackets have led to maps only. */
  lemma MissingIsError(v: Value, ts: seq<Token>, k: nat)
    requires ValidTokens(ts) && k < |ts|
    requires Walk(v, ts[..k]).Some? && Next(Walk(v, ts[..k]).value, ts[k]).None?
    requires forall j :: 0 <= j <= k && (j == 0 || ts[j - 1].Bracket?) ==>
      Walk(v, ts[..j]).Some? && Walk(v, ts[..j]).value.Dict?
    ensures Get(v, Texts(ts)) == Error
  {
    PanicsIff(v, ts);
    if j :| PanicAt(v, ts, j) {
      if j > k {
        WalkStops(v, ts, k, j);
      }
    }
    var r := Get(v, Texts(ts));
    if r.Rendered? {
      PrintsOnlyWalks(v, ts, r.text);
      var used :| PrintedFrom(v, ts, r.text, used);
      if used > k {
        WalkStops(v, ts, k, used);
      }
    }
  }

  /** What is printed of a scalar. */
  lemma ShowExactly(v: Value)
    requires Scalar(v)
    ensures v.Str? ==> Show(v) == v.text
    ensures v.Bool? ==> Show(v) == if v.b then "true" else "false"
    ensures v.Int? && IsInt64(v.n) ==> Atoi(Show(v)) == Some(v.n)
    ensures v.Float? ==> Show(v) == v.printed
  {
    if v.Int? && IsInt64(v.n) {
      AtoiFormatInt(v.n);
    }
  }

  /** What an index means: a number from zero up counts from the start, a negative one from
      the end, and anything else finds nothing. */
  lemma IndexMeans(items: seq<Value>, text: string)
    ensures forall n :: Atoi(text) == Some(n) && 0 <= n < |items| ==> ItemAt(items, text) == Some(items[n])
    ensures forall n :: Atoi(text) == Some(n) && -|items| <= n < 0 ==> ItemAt(items, text) == Some(items[|items| + n])
    ensures forall n :: Atoi(text) == Some(n) && !(-|items| <= n < |items|) ==> ItemAt(items, text) == None
    ensures Atoi(text) == None ==> ItemAt(items, text) == None
  {
  }
}
