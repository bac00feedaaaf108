/** Decimal rendering of natural numbers, as a JavaScript template literal
    renders a non-negative integer count (`${n}`), and its inverse. */
module Decimal {
  import opened Wrappers

  predicate IsDigit(c: char) {
    '0' <= c <= '9'
  }

  predicate AllDigits(s: string) {
    forall i :: 0 <= i < |s| ==> IsDigit(s[i])
  }

  /** The shortest decimal form: non-empty, digits only, and no leading zero
      unless the number is zero itself. */
  predicate IsCanonical(s: string) {
    |s| > 0 && AllDigits(s) && (s[0] == '0' ==> |s| == 1)
  }

  function DigitChar(d: nat): char
    requires d < 10
  {
    ('0' as int + d) as char
  }

  function DigitValue(c: char): nat
    requires IsDigit(c)
  {
    c as int - '0' as int
  }

  /** The decimal form of `n`, most significant digit first. */
  function NatToString(n: nat): (r: string)
    ensures IsCanonical(r)
    ensures r[0] == '0' <==> n == 0
  {
    if n < 10 then [DigitChar(n)] else NatToString(n / 10) + [DigitChar(n % 10)]
  }

  /** The value of a string of decimal digits. */
  function ParseNat(s: string): nat
    requires AllDigits(s)
  {
    if |s| == 0 then 0 else 10 * ParseNat(s[..|s| - 1]) + DigitValue(s[|s| - 1])
  }

  /** Reading back a rendered number gives the number. */
  lemma {:induction false} ParseNatToString(n: nat)
    ensures ParseNat(NatToString(n)) == n
  {
    if n >= 10 {
      var s := NatToString(n);
      assert s[..|s| - 1] == NatToString(n / 10);
      ParseNatToString(n / 10);
    }
  }

  /** Rendering the value of a canonical digit string gives the string back. */
  lemma {:induction false} NatToStringParse(s: string)
    requires IsCanonical(s)
    ensures NatToString(ParseNat(s)) == s
    decreases |s|
  {
    if |s| > 1 {
      var front := s[..|s| - 1];
      assert IsCanonical(front);
      NatToStringParse(front);
      ParseNatPositive(front);
      var n := ParseNat(s);
      assert n / 10 == ParseNat(front);
      assert n % 10 == DigitValue(s[|s| - 1]);
    }
  }

  /** A digit string that does not start with '0' has a positive value. */
  lemma {:induction false} ParseNatPositive(s: string)
    requires |s| > 0 && AllDigits(s) && s[0] != '0'
    ensures ParseNat(s) > 0
    decreases |s|
  {
    if |s| > 1 {
      ParseNatPositive(s[..|s| - 1]);
    }
  }

  /** Rendering is injective: different counts give different strings. */
  lemma NatToStringInjective(m: nat, n: nat)
    ensures NatToString(m) == NatToString(n) ==> m == n
  {
    ParseNatToString(m);
    ParseNatToString(n);
  }

  /** The length of the leading run of digits of `s`. */
  function DigitRunLength(s: string): (k: nat)
    ensures k <= |s|
    ensures forall i :: 0 <= i < k ==> IsDigit(s[i])
    ensures k == |s| || !IsDigit(s[k])
  {
    if |s| > 0 && IsDigit(s[0]) then 1 + DigitRunLength(s[1..]) else 0
  }

  /** A run of digits followed by something that does not start with a digit
      ends exactly at that boundary. */
  lemma {:induction false} DigitRunAt(d: string, rest: string)
    requires AllDigits(d)
    requires rest == [] || !IsDigit(rest[0])
    ensures DigitRunLength(d + rest) == |d|
    decreases |d|
  {
    if |d| == 0 {
      assert d + rest == rest;
    } else {
      assert (d + rest)[1..] == d[1..] + rest;
      DigitRunAt(d[1..], rest);
    }
  }

  /** Reads a count written in canonical decimal at the start of `s`,
      returning it with the text after it. */
  function ReadCount(s: string): Option<(nat, string)> {
    var k := DigitRunLength(s);
    var digits := s[..k];
    if IsCanonical(digits) then Some((ParseNat(digits), s[k..])) else None
  }

  /** A rendered count is read back, followed by what came after it. */
  lemma ReadCountOf(n: nat, rest: string)
    requires rest == [] || !IsDigit(rest[0])
    ensures ReadCount(NatToString(n) + rest) == Some((n, rest))
  {
    var d := NatToString(n);
    DigitRunAt(d, rest);
    assert (d + rest)[..|d|] == d && (d + rest)[|d|..] == rest;
    ParseNatToString(n);
  }
}
