/** Decimal text of Go integers: strconv.Atoi and strconv.FormatInt. */
module Decimal {
  import opened Common

  predicate AllDigits(s: string) {
    forall i :: 0 <= i < |s| ==> IsDigit(s[i])
  }

  function DigitsValue(s: string): int
    requires AllDigits(s)
  {
    if s == [] then 0 else DigitsValue(s[..|s| - 1]) * 10 + (s[|s| - 1] as int - '0' as int)
  }

  /** An optional sign, digits, and a value that fits an int64. */
  function Atoi(s: string): Option<int> {
    var digits := if s != [] && (s[0] == '-' || s[0] == '+') then s[1..] else s;
    if digits == [] || !AllDigits(digits) then None
    else
      var n := if s[0] == '-' then -DigitsValue(digits) else DigitsValue(digits);
      if IsInt64(n) then Some(n) else None
  }

  function FormatNat(n: nat): string {
    var last := ['0' + (n % 10) as char];
    if n < 10 then last else FormatNat(n / 10) + last
  }

  function FormatInt(n: int): string {
    if n < 0 then "-" + FormatNat(-n) else FormatNat(n)
  }

  lemma {:induction false} FormatNatValue(n: nat)
    ensures FormatNat(n) != []
    ensures AllDigits(FormatNat(n))
    ensures DigitsValue(FormatNat(n)) == n
  {
    var last := ['0' + (n % 10) as char];
    if n < 10 {
      assert last[..0] == [];
      assert DigitsValue([]) == 0;
    } else {
      FormatNatValue(n / 10);
      assert FormatNat(n)[..|FormatNat(n)| - 1] == FormatNat(n / 10);
    }
  }

  /** Printing an int64 and reading it back gives the number. */
  lemma AtoiFormatInt(n: int)
    requires IsInt64(n)
    ensures Atoi(FormatInt(n)) == Some(n)
  {
    FormatNatValue(if n < 0 then -n else n);
    if n < 0 {
      assert FormatInt(n)[1..] == FormatNat(-n);
    }
  }

  function Zeros(k: nat): string {
    seq(k, _ => '0')
  }

  /** A non-empty row of digits is some zeros and the printed form of its value. */
  lemma {:induction false} DigitsAreZerosAndNumber(s: string) returns (k: nat)
    requires s != [] && AllDigits(s)
    ensures DigitsValue(s) >= 0 && s == Zeros(k) + FormatNat(DigitsValue(s))
  {
    var front, last := s[..|s| - 1], s[|s| - 1];
    var d := last as int - '0' as int;
    assert s == front + [last] && ['0' + d as char] == [last];
    if front == [] {
      k := 0;
      assert DigitsValue(front) == 0 && Zeros(0) == [];
    } else {
      k := DigitsAreZerosAndNumber(front);
      var v := DigitsValue(front);
      if v == 0 {
        assert FormatNat(0) == ['0'];
        assert front == Zeros(k + 1);
        k := k + 1;
      } else {
        assert (v * 10 + d) / 10 == v && (v * 10 + d) % 10 == d;
        assert FormatNat(v * 10 + d) == FormatNat(v) + [last];
        assert Zeros(k) + FormatNat(v) + [last] == Zeros(k) + (FormatNat(v) + [last]);
      }
    }
  }

  lemma {:induction false} ZerosAddNothing(k: nat, s: string)
    requires AllDigits(s)
    ensures AllDigits(Zeros(k) + s) && DigitsValue(Zeros(k) + s) == DigitsValue(s)
  {
    if s == [] {
      assert Zeros(k) + s == Zeros(k);
      if k > 0 {
        assert Zeros(k)[..k - 1] == Zeros(k - 1) && Zeros(k - 1) + [] == Zeros(k - 1);
        ZerosAddNothing(k - 1, []);
      }
    } else {
      var front := s[..|s| - 1];
      assert (Zeros(k) + s)[..|Zeros(k) + s| - 1] == Zeros(k) + front;
      ZerosAddNothing(k, front);
    }
  }

  /** The text is an optional sign, any zeros, and the printed form of the number without
      its sign. */
  predicate Spells(s: string, n: int, k: nat) {
    if n < 0 then s == "-" + (Zeros(k) + FormatNat(-n))
    else
      || s == Zeros(k) + FormatNat(n)
      || s == "+" + (Zeros(k) + FormatNat(n))
      || (n == 0 && s == "-" + (Zeros(k) + FormatNat(0)))
  }

  /** Exactly the texts that spell an int64 are read, each as the number it spells. */
  lemma AtoiIffSpells(s: string, n: int)
    ensures Atoi(s) == Some(n) <==> IsInt64(n) && exists k :: Spells(s, n, k)
  {
    if Atoi(s) == Some(n) {
      var digits := if s[0] == '-' || s[0] == '+' then s[1..] else s;
      var k := DigitsAreZerosAndNumber(digits);
      assert s == [s[0]] + s[1..];
      assert Spells(s, n, k);
    } else if IsInt64(n) && exists k :: Spells(s, n, k) {
      var k :| Spells(s, n, k);
      SpelledIsRead(s, n, k);
    }
  }

  lemma SpelledIsRead(s: string, n: int, k: nat)
    requires IsInt64(n) && Spells(s, n, k)
    ensures Atoi(s) == Some(n)
  {
    var m := if n < 0 then -n else n;
    var digits := Zeros(k) + FormatNat(m);
    FormatNatValue(m);
    ZerosAddNothing(k, FormatNat(m));
    SignedIsRead(s, digits, m, n);
  }

  lemma SignedIsRead(s: string, digits: string, m: int, n: int)
    requires digits != [] && AllDigits(digits) && DigitsValue(digits) == m && IsInt64(n)
    requires || (s == "-" + digits && n == -m)
             || ((s == digits || s == "+" + digits) && n == m)
    ensures Atoi(s) == Some(n)
  {
    assert IsDigit(digits[0]);
    if s != digits {
      assert s[1..] == digits;
    }
  }
}
