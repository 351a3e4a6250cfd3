/** Short cluster names (pkg/apiserver/web/encoding.go). */
module ShortNames {
  import opened Common

  predicate Lower(c: char) { 'a' <= c <= 'z' }

  const ENVIRONMENTS: seq<string> := ["sbx", "thrash", "dev", "stage", "prod"]

  /** The first listed environment that starts `s`. */
  function EnvironmentOf(s: string, environments: seq<string>): (r: Option<string>)
    ensures r.Some? ==> r.value in environments && r.value <= s
  {
    if environments == [] then None
    else if environments[0] <= s then Some(environments[0])
    else EnvironmentOf(s, environments[1..])
  }

  /** The three groups of the name expression. */
  datatype Groups = Groups(prefix: string, environment: string, rest: string)

  predicate LettersThenDigits(s: string, n: int) {
    && 2 <= n <= 10 && n + 1 <= |s| <= n + 5
    && (forall i :: 0 <= i < n ==> Lower(s[i]))
    && (forall i :: n <= i < |s| ==> IsDigit(s[i]))
  }

  /** The name expression, said without search: letters and digits, an environment, and
      the rest of the line. */
  ghost predicate Splits(name: string, g: Groups) {
    && name == g.prefix + (g.environment + g.rest)
    && g.environment in ENVIRONMENTS
    && '\n' !in g.rest
    && exists n :: LettersThenDigits(g.prefix, n)
  }

  /** FindStringSubmatch: cut after the digits and after the environment. */
  function Match(name: string): Option<Groups> {
    var n := RunLength(Lower, name);
    MatchRuns(name, n, RunLength(IsDigit, name[n..]))
  }

  function MatchRuns(name: string, n: nat, d: nat): Option<Groups>
    requires n + d <= |name|
  {
    if 2 <= n <= 10 && 1 <= d <= 5
    then MatchTail(name[..n + d], name[n + d..], EnvironmentOf(name[n + d..], ENVIRONMENTS))
    else None
  }

  function MatchTail(prefix: string, tail: string, environment: Option<string>): Option<Groups>
    requires environment.Some? ==> environment.value <= tail
  {
    if environment.Some? && '\n' !in tail[|environment.value|..]
    then Some(Groups(prefix, environment.value, tail[|environment.value|..]))
    else None
  }

  function Dashed(g: Groups): string {
    g.prefix + ("-" + (g.environment + ("-" + g.rest)))
  }

  /** GetClusterDashName. */
  function DashName(shortName: string): Option<string> {
    var g := Match(shortName);
    if g.None? then None else Some(Dashed(g.value))
  }

  /** No listed environment is a prefix of another. */
  lemma OneEnvironment(s: string, e: string, f: string)
    requires e in ENVIRONMENTS && f in ENVIRONMENTS && e <= s && f <= s
    ensures e == f
  {
    assert e[0] == s[0] == f[0] && e[1] == s[1] == f[1];
  }

  lemma {:induction false} OnlyEnvironment(s: string, environment: string, environments: seq<string>)
    requires environment in environments && environment <= s
    requires forall e :: e in environments && e <= s ==> e == environment
    ensures EnvironmentOf(s, environments) == Some(environment)
  {
    if !(environments[0] <= s) {
      assert forall e :: e in environments[1..] ==> e in environments;
      OnlyEnvironment(s, environment, environments[1..]);
    }
  }

  lemma EnvironmentFacts(s: string, environment: string)
    requires environment in ENVIRONMENTS && environment <= s
    ensures EnvironmentOf(s, ENVIRONMENTS) == Some(environment)
    ensures environment != [] && Lower(environment[0]) && '-' !in environment
  {
    forall e | e in ENVIRONMENTS && e <= s ensures e == environment {
      OneEnvironment(s, e, environment);
    }
    OnlyEnvironment(s, environment, ENVIRONMENTS);
  }

  lemma Runs(prefix: string, n: int, tail: string)
    requires LettersThenDigits(prefix, n) && tail != [] && Lower(tail[0])
    ensures var name := prefix + tail;
      && RunLength(Lower, name) == n && RunLength(IsDigit, name[n..]) == |prefix| - n
      && name[..|prefix|] == prefix && name[|prefix|..] == tail
  {
    var name := prefix + tail;
    assert name == prefix[..n] + (prefix[n..] + tail);
    RunOfPrefix(Lower, prefix[..n], prefix[n..] + tail);
    assert name[n..] == prefix[n..] + tail;
    RunOfPrefix(IsDigit, prefix[n..], tail);
  }

  /** The search finds the groups exactly when the name splits into them. */
  lemma MatchIffSplits(name: string, g: Groups)
    ensures Match(name) == Some(g) <==> Splits(name, g)
  {
    if Match(name) == Some(g) {
      MatchSplits(name);
    }
    if Splits(name, g) {
      var n :| LettersThenDigits(g.prefix, n);
      var tail := g.environment + g.rest;
      EnvironmentFacts(tail, g.environment);
      Runs(g.prefix, n, tail);
    }
  }

  lemma MatchSplits(name: string)
    requires Match(name).Some?
    ensures Splits(name, Match(name).value)
  {
    var n := RunLength(Lower, name);
    var d := RunLength(IsDigit, name[n..]);
    PrefixRuns(name, n, d);
    RunsSplit(name, n, d);
  }

  lemma RunsSplit(name: string, n: nat, d: nat)
    requires n + d <= |name| && LettersThenDigits(name[..n + d], n) && MatchRuns(name, n, d).Some?
    ensures Splits(name, MatchRuns(name, n, d).value)
  {
    SplitsAt(name, n, n + d, EnvironmentOf(name[n + d..], ENVIRONMENTS));
  }

  lemma SplitsAt(name: string, n: int, cut: nat, environment: Option<string>)
    requires cut <= |name| && LettersThenDigits(name[..cut], n)
    requires environment.Some? ==> environment.value in ENVIRONMENTS && environment.value <= name[cut..]
    requires MatchTail(name[..cut], name[cut..], environment).Some?
    ensures Splits(name, MatchTail(name[..cut], name[cut..], environment).value)
  {
    var prefix, tail := name[..cut], name[cut..];
    assert name == prefix + tail;
    assert tail == environment.value + tail[|environment.value|..];
  }

  lemma PrefixRuns(name: string, n: nat, d: nat)
    requires n == RunLength(Lower, name) && d == RunLength(IsDigit, name[n..]) && MatchRuns(name, n, d).Some?
    ensures LettersThenDigits(name[..n + d], n)
  {
    var prefix := name[..n + d];
    forall i | n <= i < |prefix| ensures IsDigit(prefix[i]) {
      assert prefix[i] == name[n..][i - n];
    }
  }

  /** A name splits in at most one way. */
  lemma SplitUnique(name: string, g: Groups, h: Groups)
    requires Splits(name, g) && Splits(name, h)
    ensures g == h
  {
    MatchIffSplits(name, g);
    MatchIffSplits(name, h);
  }

  /** The text without its first dash. */
  function DropDash(s: string): string {
    if s == [] then [] else if s[0] == '-' then s[1..] else [s[0]] + DropDash(s[1..])
  }

  lemma {:induction false} DropDashAfter(a: string, b: string)
    requires '-' !in a
    ensures DropDash(a + ("-" + b)) == a + b
  {
    var whole := a + ("-" + b);
    if a == [] {
      assert whole == "-" + b && whole[1..] == b && a + b == b;
    } else {
      assert whole[1..] == a[1..] + ("-" + b) && whole[0] == a[0];
      DropDashAfter(a[1..], b);
      assert [a[0]] + (a[1..] + b) == a + b;
    }
  }

  lemma Regroup(a: string, b: string, c: string)
    ensures (a + b) + c == a + (b + c)
  {
  }

  lemma DropDashes(g: Groups)
    requires '-' !in g.prefix && '-' !in g.environment
    ensures DropDash(DropDash(Dashed(g))) == g.prefix + (g.environment + g.rest)
  {
    DropDashAfter(g.prefix, g.environment + ("-" + g.rest));
    Regroup(g.prefix, g.environment, "-" + g.rest);
    DropDashAfter(g.prefix + g.environment, g.rest);
    Regroup(g.prefix, g.environment, g.rest);
  }

  lemma NoDashBefore(name: string, g: Groups)
    requires Splits(name, g)
    ensures '-' !in g.prefix && '-' !in g.environment
  {
    var n :| LettersThenDigits(g.prefix, n);
    EnvironmentFacts(g.environment + g.rest, g.environment);
    forall i | 0 <= i < |g.prefix| ensures g.prefix[i] != '-' {
      assert Lower(g.prefix[i]) || IsDigit(g.prefix[i]);
    }
  }

  /** The dash form has its two dashes between the groups. */
  lemma DashesBetweenGroups(name: string, g: Groups)
    requires Splits(name, g)
    ensures DashName(name).Some? && DashName(name).value == g.prefix + "-" + g.environment + "-" + g.rest
  {
    MatchIffSplits(name, g);
    DashedFlat(g.prefix, "-", g.environment, "-", g.rest);
  }

  lemma DashedFlat(a: string, b: string, c: string, d: string, e: string)
    ensures a + b + c + d + e == a + (b + (c + (d + e)))
  {
    Regroup(a + b + c, d, e);
    Regroup(a + b, c, d + e);
    Regroup(a, b, c + (d + e));
  }

  /** A name has a dash form exactly when it splits, and dropping the first two dashes
      of the dash form gives the name back. */
  lemma DashNameInverts(name: string)
    ensures DashName(name).Some? <==> exists g :: Splits(name, g)
    ensures DashName(name).Some? ==> DropDash(DropDash(DashName(name).value)) == name
  {
    if DashName(name).Some? {
      var g := Match(name).value;
      MatchSplits(name);
      NoDashBefore(name, g);
      DropDashes(g);
    } else if exists g :: Splits(name, g) {
      var g :| Splits(name, g);
      MatchIffSplits(name, g);
    }
  }

  /** So no two short names share a dash name. */
  lemma DashNameInjective(a: string, b: string)
    requires DashName(a).Some? && DashName(a) == DashName(b)
    ensures a == b
  {
    DashNameInverts(a);
    DashNameInverts(b);
  }
}
