/**
 * Character-level helpers shared by the formatter, the duration text and the
 * form filters: decimal digits, filtering a string by a character class, and
 * the decimal rendering and value of natural numbers (template-literal
 * `${n}` and `Number.parseInt` on digit strings).
 */
module Text {

  predicate IsDigit(c: char) {
    '0' <= c <= '9'
  }

  predicate AllDigits(s: string) {
    forall i :: 0 <= i < |s| ==> IsDigit(s[i])
  }

  /** Characters `\w` matches in a JavaScript regular expression. */
  predicate IsWordChar(c: char) {
    IsDigit(c) || 'a' <= c <= 'z' || 'A' <= c <= 'Z' || c == '_'
  }

  /** `s.replace(/[^...]/g, "")`: the characters of `s` that satisfy `keep`, in order. */
  function Filter(s: string, keep: char -> bool): (r: string)
    ensures |r| <= |s|
    ensures forall i :: 0 <= i < |r| ==> keep(r[i])
    ensures forall c :: c in r <==> c in s && keep(c)
    ensures (forall i :: 0 <= i < |s| ==> keep(s[i])) ==> r == s
  {
    if s == [] then []
    else
      var tail := Filter(s[1..], keep);
      assert forall c :: c in s <==> c == s[0] || c in s[1..];
      if keep(s[0]) then [s[0]] + tail else tail
  }

  /** Filtering distributes over concatenation, so it keeps the relative order of what it keeps. */
  lemma {:induction false} FilterConcat(a: string, b: string, keep: char -> bool)
    ensures Filter(a + b, keep) == Filter(a, keep) + Filter(b, keep)
  {
    if a == [] {
      assert a + b == b;
    } else {
      assert (a + b)[0] == a[0] && (a + b)[1..] == a[1..] + b;
      FilterConcat(a[1..], b, keep);
    }
  }

  /** Filtering again by a narrower class is the same as filtering by it once. */
  lemma {:induction false} FilterNarrow(s: string, wide: char -> bool, narrow: char -> bool)
    requires forall c :: narrow(c) ==> wide(c)
    ensures Filter(Filter(s, wide), narrow) == Filter(s, narrow)
  {
    if s != [] {
      FilterNarrow(s[1..], wide, narrow);
    }
  }

  function DigitChar(d: nat): char
    requires d < 10
  {
    "0123456789"[d]
  }

  function DigitValue(c: char): (d: nat)
    requires IsDigit(c)
    ensures d < 10 && DigitChar(d) == c
  {
    (c as int - '0' as int)
  }

  /** The number a string of decimal digits denotes (the empty string denotes 0). */
  function ValueOf(s: string): nat
    requires AllDigits(s)
  {
    if s == [] then 0 else ValueOf(s[..|s| - 1]) * 10 + DigitValue(s[|s| - 1])
  }

  function Pow10(n: nat): (p: nat)
    ensures p >= 1
  {
    if n == 0 then 1 else 10 * Pow10(n - 1)
  }

  /** A numeral of n digits denotes less than 10^n. */
  lemma {:induction false} ValueBelowPow10(s: string)
    requires AllDigits(s)
    ensures ValueOf(s) < Pow10(|s|)
  {
    if s != [] {
      ValueBelowPow10(s[..|s| - 1]);
    }
  }

  /** A canonical numeral of n >= 2 digits denotes at least 10^(n-1). */
  lemma {:induction false} CanonicalAtLeastPow10(s: string)
    requires Canonical(s) && |s| >= 2
    ensures ValueOf(s) >= Pow10(|s| - 1)
  {
    var p := s[..|s| - 1];
    assert Canonical(p) by { assert p[0] == s[0]; }
    if |p| >= 2 {
      CanonicalAtLeastPow10(p);
    } else {
      assert p[0] != '0';
    }
  }

  /** A canonical decimal numeral: non-empty, and no leading zero unless it is "0". */
  predicate Canonical(s: string) {
    |s| >= 1 && AllDigits(s) && (s[0] == '0' ==> |s| == 1)
  }

  /** The decimal rendering `${n}` of a natural number. */
  function NatToString(n: nat): (s: string)
    ensures Canonical(s) && ValueOf(s) == n
  {
    if n < 10 then [DigitChar(n)]
    else
      var s := NatToString(n / 10) + [DigitChar(n % 10)];
      assert s[..|s| - 1] == NatToString(n / 10);
      s
  }

  /** Rendering inverts parsing on canonical numerals. */
  lemma {:induction false} NatToStringOfValue(s: string)
    requires Canonical(s)
    ensures NatToString(ValueOf(s)) == s
  {
    if |s| >= 2 {
      var p := s[..|s| - 1];
      assert Canonical(p) by { assert p[0] == s[0]; }
      NatToStringOfValue(p);
      CanonicalAtLeastPow10(s);
      assert ValueOf(s) / 10 == ValueOf(p);
      assert ValueOf(s) % 10 == DigitValue(s[|s| - 1]);
      assert s == p + [s[|s| - 1]];
    }
  }

  /** `parts.join(sep)` */
  function Join(parts: seq<string>, sep: string): string {
    if parts == [] then ""
    else if |parts| == 1 then parts[0]
    else Join(parts[..|parts| - 1], sep) + sep + parts[|parts| - 1]
  }

  lemma JoinSnoc(parts: seq<string>, sep: string, last: string)
    requires parts != []
    ensures Join(parts + [last], sep) == Join(parts, sep) + sep + last
  {
    assert (parts + [last])[..|parts|] == parts;
  }
}
