/** The text form of a filter condition, `<field>:<operand><value>`
    (pkg/apiserver/models/filter.go). */
module Conditions {
  import opened Common

  datatype FilterCondition = FilterCondition(field: string, operand: string, value: string)

  const ALLOWED_OPERANDS: seq<string> := ["<", "<=", "=", ">=", ">"]

  /** The character class of the field name. */
  predicate FieldChar(c: char) {
    || 'a' <= c <= 'z'
    || 'A' <= c <= 'Z'
    || '0' <= c <= '9'
    || c == '-' || c == '_' || c == '.'
  }

  /** Unicode white space, as strings.TrimSpace removes it. */
  predicate IsSpace(c: char) {
    || c == ' ' || '\U{9}' <= c <= '\U{D}' || c == '\U{85}' || c == '\U{A0}' || c == '\U{1680}'
    || '\U{2000}' <= c <= '\U{200A}' || c == '\U{2028}' || c == '\U{2029}' || c == '\U{202F}'
    || c == '\U{205F}' || c == '\U{3000}'
  }

  function TrimLeft(s: string): string {
    if s != [] && IsSpace(s[0]) then TrimLeft(s[1..]) else s
  }

  function TrimRight(s: string): string {
    if s != [] && IsSpace(s[|s| - 1]) then TrimRight(s[..|s| - 1]) else s
  }

  function TrimSpace(s: string): string {
    TrimRight(TrimLeft(s))
  }

  /** What `.*` matches: everything up to a line break. */
  function UpToNewline(s: string): string {
    if s == [] || s[0] == '\n' then [] else [s[0]] + UpToNewline(s[1..])
  }

  /** The first alternative of `<|<=|=|>=|>` that starts `s`. */
  function MatchOperand(s: string): Option<string> {
    if s == [] then None
    else if s[0] == '<' then Some("<")
    else if s[0] == '=' then Some("=")
    else if s[0] == '>' then (if |s| > 1 && s[1] == '=' then Some(">=") else Some(">"))
    else None
  }

  /** An operand is read exactly where the text starts with an allowed one; it is the text's
      own start, and `>=` is preferred to `>`. */
  lemma OperandsExactly(s: string)
    ensures MatchOperand(s).Some? <==> exists i :: 0 <= i < |ALLOWED_OPERANDS| && ALLOWED_OPERANDS[i] <= s
    ensures MatchOperand(s).Some? ==> MatchOperand(s).value in ALLOWED_OPERANDS && MatchOperand(s).value <= s
    ensures ">=" <= s ==> MatchOperand(s) == Some(">=")
  {
    if MatchOperand(s).Some? {
      var op := MatchOperand(s).value;
      assert op[0] == s[0] && op <= s;
      assert ALLOWED_OPERANDS[0] == "<" && ALLOWED_OPERANDS[2] == "=" && ALLOWED_OPERANDS[3] == ">=";
      assert ALLOWED_OPERANDS[4] == ">";
    }
  }

  /** The match that starts with the first n characters as the field, if there is one. */
  function ConditionAt(query: string, n: nat): Option<FilterCondition> {
    if n == 0 || n >= |query| || query[n] != ':' then None
    else
      var tail := query[n + 1..];
      var operand := MatchOperand(tail);
      if operand.None? then None
      else Some(FilterCondition(query[..n], operand.value, TrimSpace(UpToNewline(tail[|operand.value|..]))))
  }

  /** The leftmost match of the query expression. A run of field characters either
      starts a match or contains none. */
  function ParseCondition(query: string): Option<FilterCondition>
    decreases |query|
  {
    if query == [] then None
    else
      var n := RunLength(FieldChar, query);
      var c := ConditionAt(query, n);
      if c.Some? then c else ParseCondition(query[if n == 0 then 1 else n..])
  }

  /** Somewhere in the text: one or more field characters, a colon and an operand. */
  predicate MatchAt(query: string, i: int, n: int) {
    && 0 <= i && 0 < n && i + n < |query|
    && (forall k :: i <= k < i + n ==> FieldChar(query[k]))
    && query[i + n] == ':'
    && MatchOperand(query[i + n + 1..]).Some?
  }

  lemma {:induction false} ParsedHasMatch(query: string)
    requires ParseCondition(query).Some?
    ensures exists i, n :: MatchAt(query, i, n)
    decreases |query|
  {
    var n := RunLength(FieldChar, query);
    if ConditionAt(query, n).Some? {
      assert MatchAt(query, 0, n);
    } else {
      var skip := if n == 0 then 1 else n;
      ParsedHasMatch(query[skip..]);
      var i, k :| MatchAt(query[skip..], i, k);
      MatchShifts(query, skip, i, k);
    }
  }

  lemma MatchShifts(query: string, skip: nat, i: int, n: int)
    requires skip <= |query| && MatchAt(query[skip..], i, n)
    ensures MatchAt(query, skip + i, n)
  {
    var rest := query[skip..];
    assert rest[i + n + 1..] == query[skip + i + n + 1..];
    forall k | skip + i <= k < skip + i + n ensures FieldChar(query[k]) {
      assert query[k] == rest[k - skip];
    }
  }

  /** The match that is used: no other starts further left, and the condition is its field,
      its operand and the rest of the line, trimmed. */
  ghost predicate UsedMatch(query: string, c: FilterCondition, i: int, n: int) {
    MatchAt(query, i, n) && Leftmost(query, i) && ReadFrom(query, c, i, n)
  }

  ghost predicate Leftmost(query: string, i: int) {
    forall j, k :: MatchAt(query, j, k) ==> i <= j
  }

  predicate ReadFrom(query: string, c: FilterCondition, i: int, n: int)
    requires MatchAt(query, i, n)
  {
    var tail := query[i + n + 1..];
    && c.field == query[i..i + n]
    && MatchOperand(tail) == Some(c.operand)
    && c.value == TrimSpace(UpToNewline(tail[|c.operand|..]))
  }

  lemma {:induction false} ParsedIsLeftmost(query: string) returns (i: nat, n: nat)
    requires ParseCondition(query).Some?
    ensures UsedMatch(query, ParseCondition(query).value, i, n)
    decreases |query|
  {
    n := RunLength(FieldChar, query);
    if ConditionAt(query, n).Some? {
      i := 0;
      MatchHere(query, n);
    } else {
      var skip := if n == 0 then 1 else n;
      i, n := ParsedIsLeftmost(query[skip..]);
      UsedMatchShifts(query, skip, ParseCondition(query).value, i, n);
      i := skip + i;
    }
  }

  lemma MatchHere(query: string, n: nat)
    requires n == RunLength(FieldChar, query) && ConditionAt(query, n).Some?
    ensures UsedMatch(query, ConditionAt(query, n).value, 0, n)
  {
    assert query[0..n] == query[..n];
  }

  lemma UsedMatchShifts(query: string, skip: nat, c: FilterCondition, i: nat, n: nat)
    requires ConditionAt(query, RunLength(FieldChar, query)).None?
    requires skip == if RunLength(FieldChar, query) == 0 then 1 else RunLength(FieldChar, query)
    requires skip <= |query| && UsedMatch(query[skip..], c, i, n)
    ensures UsedMatch(query, c, skip + i, n)
  {
    MatchShifts(query, skip, i, n);
    ReadShifts(query, skip, c, i, n);
    forall j, k | MatchAt(query, j, k) ensures skip + i <= j {
      NoMatchInRun(query, j, k);
      MatchUnshifts(query, skip, j, k);
    }
  }

  lemma ReadShifts(query: string, skip: nat, c: FilterCondition, i: nat, n: nat)
    requires skip <= |query| && MatchAt(query[skip..], i, n) && MatchAt(query, skip + i, n)
    requires ReadFrom(query[skip..], c, i, n)
    ensures ReadFrom(query, c, skip + i, n)
  {
    var rest := query[skip..];
    assert query[skip + i..skip + i + n] == rest[i..i + n];
    assert query[skip + i + n + 1..] == rest[i + n + 1..];
  }

  /** A run of field characters that does not start a match contains none. */
  lemma NoMatchInRun(query: string, j: int, k: int)
    requires MatchAt(query, j, k) && ConditionAt(query, RunLength(FieldChar, query)).None?
    ensures j >= RunLength(FieldChar, query) && j >= 1
  {
  }

  lemma MatchUnshifts(query: string, skip: nat, j: int, k: int)
    requires skip <= j && MatchAt(query, j, k)
    ensures MatchAt(query[skip..], j - skip, k)
  {
    var rest := query[skip..];
    assert rest[j - skip + k + 1..] == query[j + k + 1..];
    forall x | j - skip <= x < j - skip + k ensures FieldChar(rest[x]) {
      assert rest[x] == query[x + skip];
    }
  }

  lemma {:induction false} MatchIsParsed(query: string, i: int, n: int)
    requires MatchAt(query, i, n)
    ensures ParseCondition(query).Some?
    decreases |query|
  {
    var run := RunLength(FieldChar, query);
    if run == 0 {
      assert query[1..][i - 1 + n + 1..] == query[i + n + 1..];
      assert MatchAt(query[1..], i - 1, n);
      MatchIsParsed(query[1..], i - 1, n);
    } else if ConditionAt(query, run).None? {
      assert query[run..][i - run + n + 1..] == query[i + n + 1..];
      assert MatchAt(query[run..], i - run, n);
      MatchIsParsed(query[run..], i - run, n);
    }
  }

  /** A query is accepted exactly when the expression matches somewhere in it. */
  lemma AcceptedIffMatch(query: string)
    ensures ParseCondition(query).Some? <==> exists i, n :: MatchAt(query, i, n)
  {
    if ParseCondition(query).Some? {
      ParsedHasMatch(query);
    } else if exists i, n :: MatchAt(query, i, n) {
      var i, n :| MatchAt(query, i, n);
      MatchIsParsed(query, i, n);
    }
  }

  function Print(c: FilterCondition): string {
    c.field + ":" + c.operand + c.value
  }

  predicate ValidField(s: string) {
    s != [] && forall i :: 0 <= i < |s| ==> FieldChar(s[i])
  }

  predicate Trimmed(s: string) {
    && (s != [] ==> !IsSpace(s[0]) && !IsSpace(s[|s| - 1]))
    && '\n' !in s
  }

  lemma {:induction false} NoNewline(s: string)
    requires '\n' !in s
    ensures UpToNewline(s) == s
  {
    if s != [] {
      NoNewline(s[1..]);
    }
  }

  /** A printed condition is read as its field and whatever operand starts the rest. */
  lemma PrintedParses(field: string, tail: string)
    requires ValidField(field) && MatchOperand(tail).Some?
    ensures ParseCondition(field + ":" + tail)
         == Some(FilterCondition(field, MatchOperand(tail).value,
                                 TrimSpace(UpToNewline(tail[|MatchOperand(tail).value|..]))))
  {
    var text := field + ":" + tail;
    assert text == field + (":" + tail);
    RunOfPrefix(FieldChar, field, ":" + tail);
    assert text[..|field|] == field && text[|field| + 1..] == tail;
  }

  /** The operand that is read at the start of an operand and a value. */
  lemma OperandRead(operand: string, value: string)
    requires operand in ALLOWED_OPERANDS
    ensures MatchOperand(operand + value).Some?
    ensures MatchOperand(operand + value).value == operand
      <==> operand != "<=" && !(operand == ">" && value != [] && value[0] == '=')
  {
    var tail := operand + value;
    assert tail[0] == operand[0];
    if operand == ">" && value != [] {
      assert tail[1] == value[0];
    }
  }

  /** A well-formed condition parses back to itself exactly when its operand is not
      `<=` (whose text reads as `<` followed by a value starting with `=`) and it is
      not `>` followed by a value starting with `=`. */
  lemma ConditionRoundTrip(c: FilterCondition)
    requires c.operand in ALLOWED_OPERANDS && ValidField(c.field) && Trimmed(c.value)
    ensures ParseCondition(Print(c)) == Some(c)
      <==> c.operand != "<=" && !(c.operand == ">" && c.value != [] && c.value[0] == '=')
  {
    var tail := c.operand + c.value;
    OperandRead(c.operand, c.value);
    PrintedReads(c);
    if MatchOperand(tail).value == c.operand {
      assert tail[|c.operand|..] == c.value;
      TrimmedStays(c.value);
      assert c == FilterCondition(c.field, c.operand, c.value);
    }
  }

  lemma PrintedReads(c: FilterCondition)
    requires ValidField(c.field) && MatchOperand(c.operand + c.value).Some?
    ensures
      var tail := c.operand + c.value;
      var operand := MatchOperand(tail).value;
      ParseCondition(Print(c)) == Some(FilterCondition(c.field, operand, TrimSpace(UpToNewline(tail[|operand|..]))))
  {
    assert Print(c) == c.field + ":" + (c.operand + c.value);
    PrintedParses(c.field, c.operand + c.value);
  }

  /** Trimming removes white space from both ends, all of it and nothing else. */
  lemma TrimExact(s: string) returns (left: string, right: string)
    ensures s == left + TrimSpace(s) + right
    ensures (forall c :: c in left ==> IsSpace(c)) && (forall c :: c in right ==> IsSpace(c))
    ensures var t := TrimSpace(s); t != [] ==> !IsSpace(t[0]) && !IsSpace(t[|t| - 1])
  {
    left := TrimLeftExact(s);
    var mid := TrimLeft(s);
    right := TrimRightExact(mid);
    assert s == left + mid && mid == TrimSpace(s) + right;
    if TrimSpace(s) != [] {
      assert TrimSpace(s)[0] == mid[0];
    }
  }

  lemma {:induction false} TrimLeftExact(s: string) returns (left: string)
    ensures s == left + TrimLeft(s) && forall c :: c in left ==> IsSpace(c)
    ensures TrimLeft(s) != [] ==> !IsSpace(TrimLeft(s)[0])
  {
    if s != [] && IsSpace(s[0]) {
      var rest := TrimLeftExact(s[1..]);
      left := [s[0]] + rest;
      assert s == [s[0]] + s[1..];
    } else {
      left := [];
    }
  }

  lemma {:induction false} TrimRightExact(s: string) returns (right: string)
    ensures s == TrimRight(s) + right && forall c :: c in right ==> IsSpace(c)
    ensures TrimRight(s) != [] ==> !IsSpace(TrimRight(s)[|TrimRight(s)| - 1])
  {
    if s != [] && IsSpace(s[|s| - 1]) {
      var rest := TrimRightExact(s[..|s| - 1]);
      right := rest + [s[|s| - 1]];
      assert s == s[..|s| - 1] + [s[|s| - 1]];
    } else {
      right := [];
    }
  }

  /** The value ends at the first line break. */
  lemma {:induction false} LineExact(s: string)
    ensures UpToNewline(s) <= s && '\n' !in UpToNewline(s)
    ensures |UpToNewline(s)| < |s| ==> s[|UpToNewline(s)|] == '\n'
  {
    if s != [] && s[0] != '\n' {
      LineExact(s[1..]);
      assert s == [s[0]] + s[1..];
    }
  }

  lemma TrimmedStays(s: string)
    requires Trimmed(s)
    ensures TrimSpace(UpToNewline(s)) == s
  {
    NoNewline(s);
  }

  /** No query text yields the operand `<=`. */
  lemma {:induction false} NoLessOrEqual(query: string)
    ensures ParseCondition(query).Some? ==> ParseCondition(query).value.operand in ["<", "=", ">=", ">"]
    decreases |query|
  {
    if query != [] {
      var n := RunLength(FieldChar, query);
      NoLessOrEqual(query[if n == 0 then 1 else n..]);
    }
  }
}

/** The filter chain that is sent to DynamoDB (pkg/database/filter.go). */
module DynamoFilter {
  import opened Common
  import opened Conditions
  import opened Url

  const FIELD_PREFIX := "crd.spec."

  /** The string attributes of a stored item, by document path. */
  type Item = map<string, string>

  datatype Comparison = Equal | NotEqual | GreaterThanEqual | GreaterThan | LessThanEqual | LessThan

  datatype Expression =
    | Compare(name: string, op: Comparison, value: string)
    | And(left: Expression, right: Expression)

  /** DynamoDB's evaluation: comparing a missing attribute fails, except for `<>`. */
  predicate Eval(e: Expression, item: Item) {
    match e
    case And(l, r) => Eval(l, item) && Eval(r, item)
    case Compare(name, NotEqual, v) => name !in item || item[name] != v
    case Compare(name, op, v) => name in item && Related(op, item[name], v)
  }

  predicate Related(op: Comparison, a: string, b: string) {
    match op
    case Equal => a == b
    case NotEqual => a != b
    case GreaterThanEqual => StrLe(b, a)
    case GreaterThan => StrLe(b, a) && a != b
    case LessThanEqual => StrLe(a, b)
    case LessThan => StrLe(a, b) && a != b
  }

  function ParseField(field: string): string {
    if FIELD_PREFIX <= field then field else FIELD_PREFIX + field
  }

  /** With or without the prefix, a field asks for the same attribute, below `crd.spec`. */
  lemma PrefixIsOptional(field: string)
    ensures ParseField("crd.spec." + field) == "crd.spec." + field
    ensures !("crd.spec." <= field) ==> ParseField(field) == "crd.spec." + field
    ensures "crd.spec." <= field ==> ParseField(field) == field
    ensures ParseField(ParseField(field)) == ParseField(field)
  {
    assert "crd.spec." <= "crd.spec." + field;
  }

  /** The SDK's name builder refuses a path with an empty part, an index apart. */
  predicate NameBuilds(name: string) {
    forall part :: part in Split(name, '.') ==> PartBuilds(part)
  }

  predicate PartBuilds(part: string) {
    part != "" && !(part[0] == '[' && part[|part| - 1] == ']')
  }

  predicate FieldsBuild(conditions: seq<FilterCondition>) {
    forall c :: c in conditions ==> NameBuilds(ParseField(c.field))
  }

  /** The values of ordering operands that are RFC 3339 times are reprinted; `dates`
      is the reprinting, and is undefined on other texts. */
  function ParseValue(value: string, operand: string, dates: string -> Option<string>): string {
    if operand in ["<", "<=", ">=", ">"] && dates(value).Some? then dates(value).value else value
  }

  /** Only ordering operands have their times reprinted; all else is compared as typed. */
  lemma ValuesAsTyped(value: string, operand: string, dates: string -> Option<string>)
    ensures operand == "=" || dates(value).None? ==> ParseValue(value, operand, dates) == value
    ensures operand in ["<", "<=", ">=", ">"] && dates(value).Some? ==>
      ParseValue(value, operand, dates) == dates(value).value
  {
  }

  /** What one condition asks of an item. */
  predicate Holds(c: FilterCondition, dates: string -> Option<string>, item: Item) {
    var name := ParseField(c.field);
    var v := ParseValue(c.value, c.operand, dates);
    && name in item
    && (c.operand == "=" ==> item[name] == v)
    && (c.operand in ["<", "<="] ==> StrLe(item[name], v))
    && (c.operand in [">", ">="] ==> StrLe(v, item[name]))
    && (c.operand in ["<", ">"] ==> item[name] != v)
  }

  predicate HasStatus(item: Item) {
    "status" in item ==> item["status"] != ""
  }

  /** The plain filter: a status, and every condition. */
  predicate Admits(conditions: seq<FilterCondition>, dates: string -> Option<string>, item: Item) {
    HasStatus(item) && forall c :: c in conditions ==> Holds(c, dates, item)
  }

  /** Condition i is the first whose operand is not allowed. */
  predicate FirstRefused(conditions: seq<FilterCondition>, i: int, operand: string) {
    && 0 <= i < |conditions|
    && conditions[i].operand == operand
    && forall j :: 0 <= j < i ==> conditions[j].operand in ALLOWED_OPERANDS
  }

  class DynamoDBFilter {
    var conditions: seq<FilterCondition>

    constructor ()
      ensures conditions == []
    {
      conditions := [];
    }

    method AddCondition(condition: FilterCondition)
      modifies this
      ensures conditions == old(conditions) + [condition]
    {
      conditions := conditions + [condition];
    }

    /** The chain means the conjunction of all conditions and a non-empty status; it
        is refused exactly when some operand is not allowed, naming the first. */
    method Build(dates: string -> Option<string>) returns (r: Result<Expression, string>)
      ensures r.Ok? <==> forall c :: c in conditions ==> c.operand in ALLOWED_OPERANDS
      ensures r.Ok? ==> forall item :: Eval(r.value, item) <==> Admits(conditions, dates, item)
      ensures r.Err? ==> r.error !in ALLOWED_OPERANDS && exists i :: FirstRefused(conditions, i, r.error)
    {
      var filter := Compare("status", NotEqual, "");
      for i := 0 to |conditions|
        invariant forall j :: 0 <= j < i ==> conditions[j].operand in ALLOWED_OPERANDS
        invariant forall item :: Eval(filter, item) <==> Admits(conditions[..i], dates, item)
      {
        var c := conditions[i];
        var field := ParseField(c.field);
        if c.operand !in ALLOWED_OPERANDS {
          assert FirstRefused(conditions, i, c.operand);
          return Err(c.operand);
        }
        var value := ParseValue(c.value, c.operand, dates);
        assert conditions[..i + 1] == conditions[..i] + [c];
        var op := match c.operand
          case "=" => Equal
          case ">=" => GreaterThanEqual
          case ">" => GreaterThan
          case "<=" => LessThanEqual
          case _ => LessThan;
        assert forall item :: Eval(Compare(field, op, value), item) <==> Holds(c, dates, item);
        filter := And(filter, Compare(field, op, value));
      }
      assert conditions[..|conditions|] == conditions;
      return Ok(filter);
    }
  }

  /** Neither the order nor the repetition of conditions changes what is admitted. */
  lemma OrderOfConditionsIrrelevant(a: seq<FilterCondition>, b: seq<FilterCondition>,
                                    dates: string -> Option<string>, item: Item)
    requires multiset(a) == multiset(b)
    ensures Admits(a, dates, item) <==> Admits(b, dates, item)
  {
    assert forall c :: c in a <==> c in multiset(a);
    assert forall c :: c in b <==> c in multiset(b);
  }

  /** A field as the query expression yields it builds a name if and only if, without its
      prefix, it neither starts nor ends with a dot nor holds two in a row. */
  lemma ParsedFieldBuilds(field: string)
    requires ValidField(field) && !(FIELD_PREFIX <= field)
    ensures NameBuilds(ParseField(field)) <==> "" !in Split(field, '.')
  {
    var parts := Split(field, '.');
    SplitPrefix(field);
    SplitKeepsChars(field);
    forall part | part in parts ensures PartBuilds(part) <==> part != "" {
      assert part != "" ==> FieldChar(part[0]);
    }
    assert PartBuilds("crd") && PartBuilds("spec");
    var all := ["crd", "spec"] + parts;
    if "" in parts {
      assert "" in all;
    }
  }

  lemma SplitPrefix(field: string)
    ensures Split(FIELD_PREFIX + field, '.') == ["crd", "spec"] + Split(field, '.')
  {
    assert FIELD_PREFIX + field == "crd" + ['.'] + ("spec" + ['.'] + field);
    SplitFront("crd", "spec" + ['.'] + field, '.');
    SplitFront("spec", field, '.');
  }

  lemma {:induction false} SplitKeepsChars(s: string)
    requires forall i :: 0 <= i < |s| ==> FieldChar(s[i])
    ensures forall part :: part in Split(s, '.') ==> forall i :: 0 <= i < |part| ==> FieldChar(part[i])
  {
    if s != [] {
      SplitKeepsChars(s[1..]);
      assert Split(s[1..], '.')[0] in Split(s[1..], '.');
    }
  }
}
