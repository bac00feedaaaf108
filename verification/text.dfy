/** String helpers with the semantics of the JavaScript built-ins the source
    calls: `toLowerCase` (on ASCII letters), `endsWith`, `trim` and
    `Array.prototype.join`. */
module Text {
  import opened Wrappers

  // ---------------------------------------------------------------- case

  /** Lower-cases one ASCII upper-case letter; every other character is kept. */
  function LowerChar(c: char): char {
    if 'A' <= c <= 'Z' then (c as int + 32) as char else c
  }

  function ToLower(s: string): string {
    seq(|s|, i requires 0 <= i < |s| => LowerChar(s[i]))
  }

  /** `c` matches the lower-case letter or symbol `x` ignoring ASCII case. */
  predicate SameLetterIgnoringCase(c: char, x: char)
    requires !('A' <= x <= 'Z')
  {
    c == x || ('a' <= x <= 'z' && c as int == x as int - 32)
  }

  /** `s` equals the lower-case pattern `p` up to ASCII letter case. */
  predicate EqualsIgnoringCase(s: string, p: string)
    requires forall i :: 0 <= i < |p| ==> !('A' <= p[i] <= 'Z')
  {
    |s| == |p| && forall i :: 0 <= i < |s| ==> SameLetterIgnoringCase(s[i], p[i])
  }

  /** Lower-casing a string and comparing it with a lower-case pattern is the
      same as comparing the original string with the pattern ignoring case. */
  lemma LowerEqualsIffIgnoringCase(s: string, p: string)
    requires forall i :: 0 <= i < |p| ==> !('A' <= p[i] <= 'Z')
    ensures ToLower(s) == p <==> EqualsIgnoringCase(s, p)
  {
    if ToLower(s) == p {
      forall i | 0 <= i < |s| ensures SameLetterIgnoringCase(s[i], p[i]) {
        assert LowerChar(s[i]) == p[i];
      }
    }
    if EqualsIgnoringCase(s, p) {
      forall i | 0 <= i < |s| ensures ToLower(s)[i] == p[i] {
        assert SameLetterIgnoringCase(s[i], p[i]);
      }
    }
  }

  /** Lower-casing commutes with taking a suffix. */
  lemma ToLowerSuffix(s: string, k: nat)
    requires k <= |s|
    ensures ToLower(s)[k..] == ToLower(s[k..])
  {
  }

  // ---------------------------------------------------------------- affixes

  predicate EndsWith(s: string, suffix: string) {
    |suffix| <= |s| && s[|s| - |suffix|..] == suffix
  }

  predicate StartsWith(s: string, prefix: string) {
    |prefix| <= |s| && s[..|prefix|] == prefix
  }

  /** What follows `prefix` in `s`, if `s` starts with it. */
  function StripPrefix(s: string, prefix: string): (r: Option<string>)
    ensures r.Some? <==> StartsWith(s, prefix)
    ensures r.Some? ==> prefix + r.value == s
  {
    if StartsWith(s, prefix) then Some(s[|prefix|..]) else None
  }

  lemma StripPrefixConcat(prefix: string, x: string)
    ensures StripPrefix(prefix + x, prefix) == Some(x)
  {
    assert (prefix + x)[..|prefix|] == prefix;
    assert (prefix + x)[|prefix|..] == x;
  }

  /** `x` occurs as a contiguous piece of `s`. */
  ghost predicate IsInfix(x: string, s: string) {
    exists i, j | 0 <= i <= j <= |s| :: s[i..j] == x
  }

  /** A piece of `s` is still a piece of `s` with something put in front. */
  lemma InfixAfterPrefix(x: string, prefix: string, s: string)
    requires IsInfix(x, s)
    ensures IsInfix(x, prefix + s)
  {
    var i, j :| 0 <= i <= j <= |s| && s[i..j] == x;
    assert (prefix + s)[|prefix| + i..|prefix| + j] == s[i..j];
  }

  // ---------------------------------------------------------------- trim

  /** The characters `String.prototype.trim` strips: the ECMAScript
      WhiteSpace code points (tab, vertical tab, form feed, the byte order
      mark and every space separator) and the LineTerminator code points. */
  predicate IsWhiteSpace(c: char) {
    || c == '\t' || c == '\U{B}' || c == '\U{C}' || c == ' ' || c == '\U{A0}'
    || c == '\U{FEFF}' || c == '\U{1680}' || ('\U{2000}' <= c <= '\U{200A}')
    || c == '\U{202F}' || c == '\U{205F}' || c == '\U{3000}'
    || c == '\n' || c == '\r' || c == '\U{2028}' || c == '\U{2029}'
  }

  /** Neither the first nor the last character is white space. */
  predicate IsTrimmed(s: string) {
    s == [] || (!IsWhiteSpace(s[0]) && !IsWhiteSpace(s[|s| - 1]))
  }

  predicate AllWhiteSpace(s: string) {
    forall i :: 0 <= i < |s| ==> IsWhiteSpace(s[i])
  }

  /** Drops the leading white space: what remains is a suffix of `s` that is
      empty or starts with a non-white-space character, and everything
      dropped is white space. */
  function TrimStart(s: string): (r: string)
    ensures |r| <= |s| && r == s[|s| - |r|..]
    ensures AllWhiteSpace(s[..|s| - |r|])
    ensures r == [] || !IsWhiteSpace(r[0])
    decreases |s|
  {
    if |s| > 0 && IsWhiteSpace(s[0]) then TrimStart(s[1..]) else s
  }

  /** Drops the trailing white space, symmetrically to `TrimStart`. */
  function TrimEnd(s: string): (r: string)
    ensures |r| <= |s| && r == s[..|r|]
    ensures AllWhiteSpace(s[|r|..])
    ensures r == [] || !IsWhiteSpace(r[|r| - 1])
    decreases |s|
  {
    if |s| > 0 && IsWhiteSpace(s[|s| - 1]) then TrimEnd(s[..|s| - 1]) else s
  }

  /** `String.prototype.trim`: the result is the piece of `s` left after
      removing white space from both ends, and it neither starts nor ends
      with white space. */
  function Trim(s: string): (r: string)
    ensures exists i, j :: 0 <= i <= j <= |s| && r == s[i..j]
                           && AllWhiteSpace(s[..i]) && AllWhiteSpace(s[j..])
    ensures IsTrimmed(r)
    ensures IsInfix(r, s)
  {
    var t := TrimStart(s);
    var r := TrimEnd(t);
    var i := |s| - |t|;
    assert r == s[i..i + |r|];
    assert s[i + |r|..] == t[|r|..];
    r
  }

  /** The trimmed string is empty exactly when the input is all white space. */
  lemma TrimEmptyIff(s: string)
    ensures Trim(s) == [] <==> AllWhiteSpace(s)
  {
    var r := Trim(s);
    var i, j :| 0 <= i <= j <= |s| && r == s[i..j]
                && AllWhiteSpace(s[..i]) && AllWhiteSpace(s[j..]);
    if r == [] {
      forall k | 0 <= k < |s| ensures IsWhiteSpace(s[k]) {
        if k < i { assert s[..i][k] == s[k]; }
        else { assert s[j..][k - j] == s[k]; }
      }
    }
  }

  /** Trimming twice is trimming once. */
  lemma TrimIdempotent(s: string)
    ensures Trim(Trim(s)) == Trim(s)
  {
    var r := Trim(s);
    TrimFixesUnpadded(r);
  }

  /** A string with no white space at either end is its own trim. */
  lemma TrimFixesUnpadded(r: string)
    requires IsTrimmed(r)
    ensures Trim(r) == r
  {
    assert TrimStart(r) == r;
    assert TrimEnd(r) == r;
  }

  // ---------------------------------------------------------------- join

  /** `Array.prototype.join(sep)` on an array of strings. */
  function Join(xs: seq<string>, sep: string): string
    decreases |xs|
  {
    if |xs| == 0 then ""
    else if |xs| == 1 then xs[0]
    else xs[0] + sep + Join(xs[1..], sep)
  }

  /** Every joined element appears, whole, in the joined string. */
  lemma {:induction false} JoinContains(xs: seq<string>, sep: string, i: nat)
    requires i < |xs|
    ensures IsInfix(xs[i], Join(xs, sep))
    decreases |xs|
  {
    var j := Join(xs, sep);
    if |xs| == 1 {
      assert j[0..|j|] == xs[i];
    } else if i == 0 {
      assert j[0..|xs[0]|] == xs[0];
    } else {
      JoinContains(xs[1..], sep, i - 1);
      var rest := Join(xs[1..], sep);
      var a, b :| 0 <= a <= b <= |rest| && rest[a..b] == xs[1..][i - 1];
      var off := |xs[0]| + |sep|;
      assert j[off..] == rest;
      assert j[off + a..off + b] == rest[a..b];
    }
  }

  /** The joined string's length: the elements plus one separator between
      each adjacent pair. */
  lemma {:induction false} JoinLength(xs: seq<string>, sep: string)
    requires |xs| > 0
    ensures |Join(xs, sep)| == TotalLength(xs) + (|xs| - 1) * |sep|
    decreases |xs|
  {
    if |xs| > 1 {
      JoinLength(xs[1..], sep);
      assert TotalLength(xs) == |xs[0]| + TotalLength(xs[1..]);
    }
  }

  function TotalLength(xs: seq<string>): nat {
    if |xs| == 0 then 0 else |xs[0]| + TotalLength(xs[1..])
  }
}
