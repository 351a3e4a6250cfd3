/** Small vocabulary shared by every component: optional values, results, Go's
    64-bit integer arithmetic and two list operations. */
module Common {

  datatype Option<+T> = None | Some(value: T)

  datatype Result<+T, +E> = Ok(value: T) | Err(error: E)

  // Go's int and int64: two's complement, silent wrap-around.
  const MIN_INT64: int := -0x8000_0000_0000_0000
  const MAX_INT64: int := 0x7FFF_FFFF_FFFF_FFFF
  const TWO_64: int := 0x1_0000_0000_0000_0000

  predicate IsInt64(n: int) {
    MIN_INT64 <= n <= MAX_INT64
  }

  /** The int64 that an arithmetic result is truncated to. */
  function Wrap64(n: int): (r: int)
    ensures IsInt64(r)
    ensures IsInt64(n) ==> r == n
  {
    (n - MIN_INT64) % TWO_64 + MIN_INT64
  }

  function Filter<T>(p: T -> bool, s: seq<T>): seq<T> {
    if s == [] then []
    else if p(s[0]) then [s[0]] + Filter(p, s[1..])
    else Filter(p, s[1..])
  }

  function Map<T, U>(f: T -> U, s: seq<T>): (r: seq<U>)
    ensures |r| == |s|
    ensures forall i :: 0 <= i < |s| ==> r[i] == f(s[i])
  {
    seq(|s|, i requires 0 <= i < |s| => f(s[i]))
  }

  function Flatten<T>(parts: seq<seq<T>>): seq<T> {
    if parts == [] then [] else parts[0] + Flatten(parts[1..])
  }

  lemma MapCons<T, U>(f: T -> U, s: seq<T>)
    requires s != []
    ensures Map(f, s) == [f(s[0])] + Map(f, s[1..])
  {
  }

  lemma MapSnoc<T, U>(f: T -> U, s: seq<T>, i: nat)
    requires i < |s|
    ensures Map(f, s[..i + 1]) == Map(f, s[..i]) + [f(s[i])]
  {
  }

  lemma {:induction false} FilterAppend<T>(p: T -> bool, a: seq<T>, b: seq<T>)
    ensures Filter(p, a + b) == Filter(p, a) + Filter(p, b)
  {
    if a == [] {
      assert a + b == b;
    } else {
      assert (a + b)[1..] == a[1..] + b;
      FilterAppend(p, a[1..], b);
    }
  }

  lemma {:induction false} FlattenAppend<T>(a: seq<seq<T>>, b: seq<seq<T>>)
    ensures Flatten(a + b) == Flatten(a) + Flatten(b)
  {
    if a == [] {
      assert a + b == b;
    } else {
      assert (a + b)[1..] == a[1..] + b;
      FlattenAppend(a[1..], b);
    }
  }

  /** Filtering depends only on the predicate's value on the listed elements. */
  lemma {:induction false} FilterCongruence<T>(p: T -> bool, q: T -> bool, s: seq<T>)
    requires forall x :: x in s ==> p(x) == q(x)
    ensures Filter(p, s) == Filter(q, s)
  {
    if s != [] {
      assert s[0] in s;
      assert forall x :: x in s[1..] ==> x in s;
      FilterCongruence(p, q, s[1..]);
    }
  }

  lemma {:induction false} FilterMembers<T>(p: T -> bool, s: seq<T>)
    ensures forall x :: x in Filter(p, s) <==> x in s && p(x)
    ensures |Filter(p, s)| <= |s|
  {
    if s != [] {
      FilterMembers(p, s[1..]);
      assert s == [s[0]] + s[1..];
    }
  }

  /** Filtering finds nothing exactly if no element satisfies the predicate. */
  lemma {:induction false} FilterFinds<T>(p: T -> bool, s: seq<T>)
    ensures Filter(p, s) != [] <==> exists i :: 0 <= i < |s| && p(s[i])
  {
    if s != [] {
      FilterFinds(p, s[1..]);
      if i :| 0 <= i < |s| && p(s[i]) {
        assert i > 0 ==> p(s[1..][i - 1]);
      }
      if i :| 0 <= i < |s[1..]| && p(s[1..][i]) {
        assert p(s[i + 1]);
      }
    }
  }

  // ---- Texts -------------------------------------------------------------------------

  predicate IsDigit(c: char) {
    '0' <= c <= '9'
  }

  /** How many characters at the start satisfy `p`. */
  function RunLength(p: char -> bool, s: string): (n: nat)
    ensures n <= |s|
    ensures forall i :: 0 <= i < n ==> p(s[i])
    ensures n < |s| ==> !p(s[n])
  {
    if s == [] || !p(s[0]) then 0 else 1 + RunLength(p, s[1..])
  }

  lemma {:induction false} RunOfPrefix(p: char -> bool, a: string, b: string)
    requires forall i :: 0 <= i < |a| ==> p(a[i])
    requires b != [] ==> !p(b[0])
    ensures RunLength(p, a + b) == |a|
  {
    if a == [] {
      assert a + b == b;
    } else {
      assert (a + b)[1..] == a[1..] + b;
      RunOfPrefix(p, a[1..], b);
    }
  }

  /** strings.Split on one character. */
  function Split(s: string, sep: char): (r: seq<string>)
    ensures r != []
  {
    if s == [] then [""]
    else
      var rest := Split(s[1..], sep);
      if s[0] == sep then [""] + rest else [[s[0]] + rest[0]] + rest[1..]
  }

  function Join(parts: seq<string>, sep: char): string
    requires parts != []
  {
    if |parts| == 1 then parts[0] else parts[0] + [sep] + Join(parts[1..], sep)
  }

  /** Splitting loses nothing. */
  lemma {:induction false} SplitJoins(s: string, sep: char)
    ensures Join(Split(s, sep), sep) == s
  {
    if s != [] {
      SplitJoins(s[1..], sep);
      if s[0] == sep {
        assert Split(s, sep)[1..] == Split(s[1..], sep);
      } else {
        JoinPrepends(s[0], Split(s[1..], sep), sep);
      }
    }
  }

  lemma JoinPrepends(c: char, parts: seq<string>, sep: char)
    requires parts != []
    ensures Join([[c] + parts[0]] + parts[1..], sep) == [c] + Join(parts, sep)
  {
    var longer := [[c] + parts[0]] + parts[1..];
    assert longer[1..] == parts[1..];
    if |parts| > 1 {
      assert ([c] + parts[0]) + [sep] + Join(parts[1..], sep) == [c] + (parts[0] + [sep] + Join(parts[1..], sep));
    }
  }

  /** A part without the separator comes off the front. */
  lemma {:induction false} SplitFront(part: string, rest: string, sep: char)
    requires sep !in part
    ensures Split(part + [sep] + rest, sep) == [part] + Split(rest, sep)
  {
    var s := part + [sep] + rest;
    if part == [] {
      assert s == [sep] + rest && s[1..] == rest;
    } else {
      assert s[1..] == part[1..] + [sep] + rest && s[0] == part[0];
      SplitFront(part[1..], rest, sep);
      assert [part[0]] + part[1..] == part;
    }
  }

  lemma {:induction false} SplitWhole(s: string, sep: char)
    requires sep !in s
    ensures Split(s, sep) == [s]
  {
    if s != [] {
      SplitWhole(s[1..], sep);
      assert [s[0]] + s[1..] == s;
    }
  }

  /** No part holds the separator. */
  lemma {:induction false} SplitAtSeparators(s: string, sep: char)
    ensures forall p :: p in Split(s, sep) ==> sep !in p
  {
    if s != [] {
      SplitAtSeparators(s[1..], sep);
      assert Split(s[1..], sep)[0] in Split(s[1..], sep);
    }
  }
}
