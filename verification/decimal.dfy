/** Decimal text of integers, as C# string interpolation writes an `int`, and the
    matching reader used to state what a formatted message contains.
    Interpolation formats with the current culture; the model assumes a culture
    whose negative sign is '-' and whose digits are '0'..'9' (an optional '-'
    and the digits, no grouping), as in the invariant culture. */
module Decimal {
  import opened Optional

  predicate IsDigit(c: char) { '0' <= c <= '9' }

  predicate AllDigits(s: string)
  {
    forall i | 0 <= i < |s| :: IsDigit(s[i])
  }

  function DigitChar(d: nat): (c: char)
    requires d < 10
    ensures IsDigit(c)
  {
    ('0' as int + d) as char
  }

  function DigitValue(c: char): (d: nat)
    requires IsDigit(c)
    ensures d < 10
    ensures DigitChar(d) == c
  {
    c as int - '0' as int
  }

  /** A numeral without superfluous leading zeros: "0", or digits led by a
      non-zero one. */
  predicate Canonical(s: string)
  {
    1 <= |s| && AllDigits(s) && (|s| == 1 || s[0] != '0')
  }

  /** The shortest decimal numeral of `n`. */
  function NatToString(n: nat): (s: string)
    ensures Canonical(s)
    ensures s[0] == '0' <==> n == 0
    decreases n
  {
    if n < 10 then [DigitChar(n)] else NatToString(n / 10) + [DigitChar(n % 10)]
  }

  /** `n.ToString()` for an `int`. */
  function IntToString(n: int): (s: string)
    ensures 1 <= |s|
    ensures s[0] == '-' <==> n < 0
    ensures n < 0 ==> Canonical(s[1..]) && s[1] != '0'
    ensures n >= 0 ==> Canonical(s)
  {
    if n < 0 then "-" + NatToString(-n) else NatToString(n)
  }

  /** The value of a numeral. */
  function ParseDigits(s: string): nat
    requires AllDigits(s)
  {
    if |s| == 0 then 0 else 10 * ParseDigits(s[..|s| - 1]) + DigitValue(s[|s| - 1])
  }

  lemma {:induction false} ParseNatToString(n: nat)
    ensures ParseDigits(NatToString(n)) == n
    decreases n
  {
    var s := NatToString(n);
    if n >= 10 {
      ParseNatToString(n / 10);
      assert s[..|s| - 1] == NatToString(n / 10);
      assert DigitValue(s[|s| - 1]) == n % 10;
    }
  }

  /** A numeral with a non-zero leading digit has a positive value. */
  lemma {:induction false} LeadingNonZero(s: string)
    requires AllDigits(s) && 1 <= |s| && s[0] != '0'
    ensures ParseDigits(s) >= 1
    decreases |s|
  {
    if |s| > 1 {
      LeadingNonZero(s[..|s| - 1]);
    }
  }

  /** Canonical numerals and numbers correspond one to one: the only canonical
      numeral of value `ParseDigits(s)` is `NatToString` of it. */
  lemma {:induction false} CanonicalUnique(s: string)
    requires Canonical(s)
    ensures NatToString(ParseDigits(s)) == s
    decreases |s|
  {
    var n := ParseDigits(s);
    if |s| > 1 {
      var p := s[..|s| - 1];
      CanonicalUnique(p);
      LeadingNonZero(p);
      assert n / 10 == ParseDigits(p) && n % 10 == DigitValue(s[|s| - 1]);
      assert s == p + [s[|s| - 1]];
    }
  }

  /** Length of the longest all-digit prefix of `s`. */
  function DigitRun(s: string): (k: nat)
    ensures k <= |s|
    ensures AllDigits(s[..k])
    ensures k < |s| ==> !IsDigit(s[k])
  {
    if |s| == 0 || !IsDigit(s[0]) then 0
    else
      var k := 1 + DigitRun(s[1..]);
      assert s[..k] == [s[0]] + s[1..][..k - 1];
      k
  }

  /** Reads a canonical numeral at the front of `s`: its value and what follows
      it, or None when `s` does not start with a digit or its digit run has a
      superfluous leading zero. */
  function ReadNat(s: string): Option<(nat, string)>
  {
    var k := DigitRun(s);
    if k == 0 || (k > 1 && s[0] == '0') then None else Some((ParseDigits(s[..k]), s[k..]))
  }

  /** Reads an optionally negative canonical numeral at the front of `s` ("-0" is
      not one); returns its value and what follows it, or None when `s` does not
      start with one. */
  function ReadInt(s: string): Option<(int, string)>
  {
    if |s| > 0 && s[0] == '-' then
      match ReadNat(s[1..])
      case None => None
      case Some((v, rest)) => if v == 0 then None else Some((0 - v as int, rest))
    else
      match ReadNat(s)
      case None => None
      case Some((v, rest)) => Some((v as int, rest))
  }

  /** The digit run of a numeral followed by a non-digit is the numeral. */
  lemma {:induction false} DigitRunOfNumeral(d: string, rest: string)
    requires AllDigits(d)
    requires |rest| == 0 || !IsDigit(rest[0])
    ensures DigitRun(d + rest) == |d|
    decreases |d|
  {
    if |d| > 0 {
      assert (d + rest)[1..] == d[1..] + rest;
      DigitRunOfNumeral(d[1..], rest);
    }
  }

  /** A numeral followed by anything that does not continue it reads back as the
      same number and the same remainder. */
  lemma ReadIntToString(n: int, rest: string)
    requires |rest| == 0 || !IsDigit(rest[0])
    ensures ReadInt(IntToString(n) + rest) == Some((n, rest))
  {
    if n < 0 {
      ReadNegative(-n, rest);
    } else {
      ReadNonNegative(n, rest);
    }
  }

  lemma ReadNegative(m: nat, rest: string)
    requires m > 0
    requires |rest| == 0 || !IsDigit(rest[0])
    ensures ReadInt(("-" + NatToString(m)) + rest) == Some((0 - m as int, rest))
  {
    var t := NatToString(m) + rest;
    ReadNumeral(m, rest);
    assert ("-" + NatToString(m)) + rest == "-" + t;
    assert ("-" + t)[0] == '-' && ("-" + t)[1..] == t;
    assert ReadNat(t) == Some((m, rest));
  }

  lemma ReadNonNegative(n: nat, rest: string)
    requires |rest| == 0 || !IsDigit(rest[0])
    ensures ReadInt(NatToString(n) + rest) == Some((n, rest))
  {
    ReadNumeral(n, rest);
    assert (NatToString(n) + rest)[0] == NatToString(n)[0];
  }

  /** The unsigned half of `ReadIntToString`. */
  lemma ReadNumeral(n: nat, rest: string)
    requires |rest| == 0 || !IsDigit(rest[0])
    ensures ReadNat(NatToString(n) + rest) == Some((n, rest))
  {
    var d := NatToString(n);
    ParseNatToString(n);
    var t := d + rest;
    assert t[..|d|] == d && t[|d|..] == rest;
    DigitRunOfNumeral(d, rest);
  }

  /** Whatever `ReadNat` accepts is the numeral of the value it returns followed by
      the remainder it returns. */
  lemma ReadNatInverse(s: string)
    requires ReadNat(s).Some?
    ensures s == NatToString(ReadNat(s).value.0) + ReadNat(s).value.1
  {
    var k := DigitRun(s);
    assert Canonical(s[..k]);
    CanonicalUnique(s[..k]);
    assert s == s[..k] + s[k..];
  }

  /** Whatever `ReadInt` accepts is `IntToString` of the value it returns followed
      by the remainder it returns: no other text reads as that number. */
  lemma ReadIntInverse(s: string)
    requires ReadInt(s).Some?
    ensures s == IntToString(ReadInt(s).value.0) + ReadInt(s).value.1
  {
    if |s| > 0 && s[0] == '-' {
      ReadNatInverse(s[1..]);
      assert s == "-" + s[1..];
    } else {
      ReadNatInverse(s);
    }
  }
}
