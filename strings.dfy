/** String primitives of JavaScript that the notes page relies on:
    `\s` and `String.prototype.trim`, `toLowerCase` (ASCII letters only),
    `startsWith`, and the decimal rendering of a number in a template literal. */
module Strings {

  /** The characters JavaScript treats as white space or line terminators:
      those `\s` matches in a regular expression and `trim` removes. */
  predicate IsWhitespace(c: char) {
    || c == ' ' || c == '\t' || c == '\n' || c == '\r'
    || c == '\U{000B}' || c == '\U{000C}' || c == '\U{00A0}' || c == '\U{1680}'
    || ('\U{2000}' <= c <= '\U{200A}')
    || c == '\U{2028}' || c == '\U{2029}' || c == '\U{202F}' || c == '\U{205F}'
    || c == '\U{3000}' || c == '\U{FEFF}'
  }

  predicate AllWhitespace(s: string) {
    forall k :: 0 <= k < |s| ==> IsWhitespace(s[k])
  }

  predicate NoWhitespace(s: string) {
    forall k :: 0 <= k < |s| ==> !IsWhitespace(s[k])
  }

  /** `s` without its leading white space (`trimStart`). */
  function DropLeading(s: string): (r: string)
    ensures |r| <= |s| && r == s[|s| - |r|..]
    ensures AllWhitespace(s[..|s| - |r|])
    ensures r == [] || !IsWhitespace(r[0])
  {
    if s == [] || !IsWhitespace(s[0]) then s else DropLeading(s[1..])
  }

  /** `s` without its trailing white space (`trimEnd`). */
  function DropTrailing(s: string): (r: string)
    ensures |r| <= |s| && r == s[..|r|]
    ensures AllWhitespace(s[|r|..])
    ensures r == [] || !IsWhitespace(r[|r| - 1])
  {
    if s == [] || !IsWhitespace(s[|s| - 1]) then s else DropTrailing(s[..|s| - 1])
  }

  /** `String.prototype.trim`: the slice of `s` left after cutting white space
      from both ends; it is empty exactly when `s` is all white space. */
  function Trim(s: string): (r: string)
    ensures r == [] || (!IsWhitespace(r[0]) && !IsWhitespace(r[|r| - 1]))
    ensures r == [] <==> AllWhitespace(s)
  {
    var a := DropLeading(s);
    var r := DropTrailing(a);
    assert s == s[..|s| - |a|] + a;
    assert a == r + a[|r|..];
    r
  }

  /** `Trim(s)` is the middle of `s` between a white-space prefix and a white-space
      suffix; the prefix ends where `DropLeading` starts. */
  lemma TrimIsSlice(s: string, i: nat)
    requires i == |s| - |DropLeading(s)|
    ensures i + |Trim(s)| <= |s|
    ensures Trim(s) == s[i..i + |Trim(s)|]
    ensures AllWhitespace(s[..i]) && AllWhitespace(s[i + |Trim(s)|..])
  {
    TrimParts(s, DropLeading(s), Trim(s), i);
  }

  lemma TrimParts(s: string, a: string, r: string, i: nat)
    requires i <= |s| && a == s[i..] && AllWhitespace(s[..i])
    requires |r| <= |a| && r == a[..|r|] && AllWhitespace(a[|r|..])
    ensures i + |r| <= |s| && r == s[i..i + |r|]
    ensures AllWhitespace(s[i + |r|..])
  {
    TrimMiddle(s, a, r, i);
    TrimSuffix(s, a, r, i);
  }

  lemma TrimMiddle(s: string, a: string, r: string, i: nat)
    requires i <= |s| && a == s[i..]
    requires |r| <= |a| && r == a[..|r|]
    ensures r == s[i..i + |r|]
  {
  }

  lemma TrimSuffix(s: string, a: string, r: string, i: nat)
    requires i <= |s| && a == s[i..]
    requires |r| <= |a| && AllWhitespace(a[|r|..])
    ensures AllWhitespace(s[i + |r|..])
  {
    var suffix := s[i + |r|..];
    assert suffix == a[|r|..];
  }

  /** `toLowerCase` restricted to ASCII: `A`..`Z` become `a`..`z`, every other character stays. */
  function AsciiLower(c: char): char {
    if 'A' <= c <= 'Z' then (c as int + 32) as char else c
  }

  function Lower(s: string): (r: string)
    ensures |r| == |s|
  {
    seq(|s|, k requires 0 <= k < |s| => AsciiLower(s[k]))
  }

  lemma LowerIdempotent(s: string)
    ensures Lower(Lower(s)) == Lower(s)
  {
    forall k | 0 <= k < |s|
      ensures Lower(Lower(s))[k] == Lower(s)[k]
    {
      var c := s[k];
      if 'A' <= c <= 'Z' {
        assert !('A' <= AsciiLower(c) <= 'Z');
      }
    }
  }

  /** Lowering keeps white space where it is and creates none. */
  lemma LowerKeepsWhitespace(s: string, k: nat)
    requires k < |s|
    ensures IsWhitespace(Lower(s)[k]) <==> IsWhitespace(s[k])
  {
  }

  /** `String.prototype.startsWith`. */
  predicate StartsWith(s: string, prefix: string) {
    |prefix| <= |s| && s[..|prefix|] == prefix
  }

  predicate IsDigit(c: char) {
    '0' <= c <= '9'
  }

  function DigitChar(d: nat): (c: char)
    requires d < 10
    ensures IsDigit(c) && c as int - '0' as int == d
  {
    ('0' as int + d) as char
  }

  /** The decimal text of `n`, as a template literal `${n}` renders it: digits only,
      no leading zero. */
  function NatToString(n: nat): (r: string)
    ensures |r| >= 1
    ensures forall k :: 0 <= k < |r| ==> IsDigit(r[k])
    ensures r[0] == '0' ==> n == 0
    decreases n
  {
    if n < 10 then [DigitChar(n)] else NatToString(n / 10) + [DigitChar(n % 10)]
  }

  function ParseDecimal(s: string): nat
    requires forall k :: 0 <= k < |s| ==> IsDigit(s[k])
  {
    if s == [] then 0
    else
      var last := s[|s| - 1];
      assert IsDigit(last);
      10 * ParseDecimal(s[..|s| - 1]) + (last as int - '0' as int)
  }

  /** Reading the decimal text back gives the number: distinct numbers have distinct texts. */
  lemma {:induction false} DecimalRoundTrip(n: nat)
    ensures ParseDecimal(NatToString(n)) == n
    decreases n
  {
    if n >= 10 {
      DecimalRoundTrip(n / 10);
      var r := NatToString(n);
      assert r[..|r| - 1] == NatToString(n / 10);
    }
  }

  lemma NatToStringInjective(m: nat, n: nat)
    requires NatToString(m) == NatToString(n)
    ensures m == n
  {
    DecimalRoundTrip(m);
    DecimalRoundTrip(n);
  }
}
