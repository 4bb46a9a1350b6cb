/**
 * Indian (lakh/crore) digit grouping of lib/utils.ts: the last three digits
 * form one group and the digits before them are grouped in pairs, so that
 * 100000 reads "1,00,000". `formatIndianNumber` does this with the regular
 * expression `\B(?=(\d{2})+(?!\d))`; the model states that expression's
 * matching rule directly over characters and proves that, on digit strings,
 * it yields the right-to-left grouping `GroupDigits`.
 */
module NumberFormat {
  import opened Text
  import opened Wrappers

  predicate NotComma(c: char) {
    c != ','
  }

  /** Length of the maximal run of digits of `s` that starts at position `p`. */
  function DigitRun(s: string, p: nat): (n: nat)
    requires p <= |s|
    ensures p + n <= |s|
    ensures forall i :: p <= i < p + n ==> IsDigit(s[i])
    ensures p + n == |s| || !IsDigit(s[p + n])
    decreases |s| - p
  {
    if p < |s| && IsDigit(s[p]) then 1 + DigitRun(s, p + 1) else 0
  }

  /** `\B` holds at `p`: both neighbours are word characters or neither is (outside the string counts as non-word). */
  predicate NonBoundary(s: string, p: nat)
    requires p <= |s|
  {
    (p > 0 && IsWordChar(s[p - 1])) == (p < |s| && IsWordChar(s[p]))
  }

  /**
   * The pattern `\B(?=(\d{2})+(?!\d))` matches (with zero width) at `p`:
   * `(\d{2})+` can take 2, 4, ... digits and `(?!\d)` then needs a non-digit,
   * so the lookahead holds exactly when the digit run at `p` is even and non-empty.
   */
  predicate CommaBefore(s: string, p: nat)
    requires p <= |s|
  {
    NonBoundary(s, p) && DigitRun(s, p) >= 2 && DigitRun(s, p) % 2 == 0
  }

  /** The first `n` characters of `s` after the global replace, each preceded by "," where the pattern matches. */
  function InsertUpTo(s: string, n: nat): string
    requires n <= |s|
  {
    if n == 0 then ""
    else InsertUpTo(s, n - 1) + (if CommaBefore(s, n - 1) then "," else "") + [s[n - 1]]
  }

  /** `rest.replace(/\B(?=(\d{2})+(?!\d))/g, ",")` */
  function InsertCommas(s: string): string {
    InsertUpTo(s, |s|)
  }

  /** `formatIndianNumber` on a string argument (lib/utils.ts:18-32). */
  function FormatIndianNumber(value: string): string {
    if value == "" then "0"
    else
      var lastThree := if |value| <= 3 then value else value[|value| - 3..];
      var rest := if |value| <= 3 then "" else value[..|value| - 3];
      if rest == "" then lastThree else InsertCommas(rest) + "," + lastThree
  }

  // ---------------------------------------------------------------------------
  // Reference grouping: right-to-left groups of three, then of two

  function Concat(gs: seq<string>): string {
    if gs == [] then "" else Concat(gs[..|gs| - 1]) + gs[|gs| - 1]
  }

  /** Splits `s` into pairs from the right; only the first group may be a single character. */
  function PairGroups(s: string): (gs: seq<string>)
    requires |s| >= 1
    ensures |gs| >= 1 && Concat(gs) == s
    ensures 1 <= |gs[0]| <= 2
    ensures forall i :: 0 < i < |gs| ==> |gs[i]| == 2
  {
    if |s| <= 2 then
      assert Concat([s]) == Concat([]) + s;
      [s]
    else
      var gs := PairGroups(s[..|s| - 2]) + [s[|s| - 2..]];
      assert gs[..|gs| - 1] == PairGroups(s[..|s| - 2]);
      assert s == s[..|s| - 2] + s[|s| - 2..];
      gs
  }

  /** The Indian grouping of a numeral: a last group of three and pairs before it. */
  function GroupDigits(s: string): (gs: seq<string>)
    requires |s| >= 1
    ensures |gs| >= 1 && Concat(gs) == s
    ensures |s| <= 3 ==> gs == [s]
    ensures |s| > 3 ==> |gs[|gs| - 1]| == 3 && 1 <= |gs[0]| <= 2
    ensures forall i :: 0 < i < |gs| - 1 ==> |gs[i]| == 2
  {
    if |s| <= 3 then
      assert Concat([s]) == Concat([]) + s;
      [s]
    else
      var gs := PairGroups(s[..|s| - 3]) + [s[|s| - 3..]];
      assert gs[..|gs| - 1] == PairGroups(s[..|s| - 3]);
      assert s == s[..|s| - 3] + s[|s| - 3..];
      gs
  }

  // ---------------------------------------------------------------------------
  // The regular expression, on digit strings, inserts exactly the reference commas

  lemma {:induction false} DigitRunOfDigits(s: string, p: nat)
    requires AllDigits(s) && p <= |s|
    ensures DigitRun(s, p) == |s| - p
    decreases |s| - p
  {
    if p < |s| {
      DigitRunOfDigits(s, p + 1);
    }
  }

  lemma CommaBeforeDigits(s: string, p: nat)
    requires AllDigits(s) && p <= |s|
    ensures CommaBefore(s, p) <==> 0 < p < |s| && (|s| - p) % 2 == 0
  {
    DigitRunOfDigits(s, p);
  }

  /** Two more digits of a digit string add a comma and a pair, when the parity puts a comma there. */
  lemma InsertUpToStep(s: string, n: nat)
    requires AllDigits(s) && 3 <= n <= |s| && (|s| - n) % 2 == 0
    ensures InsertUpTo(s, n) == InsertUpTo(s, n - 2) + "," + s[n - 2..n]
  {
    CommaBeforeDigits(s, n - 1);
    CommaBeforeDigits(s, n - 2);
    var a := InsertUpTo(s, n - 2);
    assert InsertUpTo(s, n - 1) == a + "," + [s[n - 2]];
    assert InsertUpTo(s, n) == a + "," + [s[n - 2]] + [s[n - 1]];
    assert [s[n - 2]] + [s[n - 1]] == s[n - 2..n];
  }

  lemma {:induction false} InsertUpToPairs(s: string, n: nat)
    requires AllDigits(s) && 1 <= n <= |s| && (|s| - n) % 2 == 0
    ensures InsertUpTo(s, n) == Join(PairGroups(s[..n]), ",")
  {
    CommaBeforeDigits(s, 0);
    if n == 1 {
      assert InsertUpTo(s, 1) == s[..1];
    } else if n == 2 {
      CommaBeforeDigits(s, 1);
      assert InsertUpTo(s, 1) == s[..1];
      assert InsertUpTo(s, 2) == s[..2];
    } else {
      InsertUpToStep(s, n);
      InsertUpToPairs(s, n - 2);
      var t := s[..n];
      assert t[..|t| - 2] == s[..n - 2];
      assert t[|t| - 2..] == s[n - 2..n];
      assert PairGroups(t) == PairGroups(s[..n - 2]) + [s[n - 2..n]];
      JoinSnoc(PairGroups(s[..n - 2]), ",", s[n - 2..n]);
    }
  }

  /** On every non-empty digit string, the regex-based formatter yields the reference grouping. */
  lemma FormatIndianNumberGroups(s: string)
    requires AllDigits(s) && |s| >= 1
    ensures FormatIndianNumber(s) == Join(GroupDigits(s), ",")
  {
    if |s| > 3 {
      var rest := s[..|s| - 3];
      InsertUpToPairs(rest, |rest|);
      assert rest[..|rest|] == rest;
      JoinSnoc(PairGroups(rest), ",", s[|s| - 3..]);
    }
  }

  lemma {:induction false} JoinCommaStrip(gs: seq<string>)
    requires forall i :: 0 <= i < |gs| ==> ',' !in gs[i]
    ensures Filter(Join(gs, ","), NotComma) == Concat(gs)
  {
    if |gs| == 1 {
      assert Concat(gs) == Concat([]) + gs[0];
    } else if |gs| > 1 {
      var init, last := gs[..|gs| - 1], gs[|gs| - 1];
      JoinCommaStrip(init);
      FilterConcat(Join(init, ",") + ",", last, NotComma);
      FilterConcat(Join(init, ","), ",", NotComma);
      assert Filter(",", NotComma) == "";
    }
  }

  lemma NoCommaInDigits(s: string)
    requires AllDigits(s)
    ensures ',' !in s
  {
  }

  /** Deleting the commas from the formatted numeral gives back the numeral. */
  lemma FormatIndianNumberRoundTrip(s: string)
    requires AllDigits(s) && |s| >= 1
    ensures Filter(FormatIndianNumber(s), NotComma) == s
  {
    FormatIndianNumberGroups(s);
    var gs := GroupDigits(s);
    forall i | 0 <= i < |gs| ensures ',' !in gs[i] {
      if ',' in gs[i] {
        ConcatContains(gs, i);
        NoCommaInDigits(s);
      }
    }
    JoinCommaStrip(gs);
  }

  lemma {:induction false} ConcatContains(gs: seq<string>, i: nat)
    requires i < |gs|
    ensures forall c :: c in gs[i] ==> c in Concat(gs)
  {
    if i < |gs| - 1 {
      ConcatContains(gs[..|gs| - 1], i);
    }
  }

  /** The empty string formats as "0"; up to three characters are returned unchanged. */
  lemma FormatIndianNumberShort(s: string)
    requires |s| <= 3
    ensures FormatIndianNumber(s) == if s == "" then "0" else s
  {
  }

  /** A six-digit numeral (a lakh and up) reads "d,dd,ddd". */
  lemma FormatIndianNumberSixDigits(s: string)
    requires AllDigits(s) && |s| == 6
    ensures FormatIndianNumber(s) == s[..1] + "," + s[1..3] + "," + s[3..]
  {
    FormatIndianNumberGroups(s);
    var rest := s[..3];
    assert rest[..1] == s[..1] && rest[1..] == s[1..3];
    assert PairGroups(rest) == [s[..1], s[1..3]];
    var gs := [s[..1], s[1..3], s[3..]];
    assert GroupDigits(s) == gs;
    assert gs[..2] == [s[..1], s[1..3]] && gs[..2][..1] == [s[..1]];
    assert Join(gs[..2], ",") == s[..1] + "," + s[1..3];
    assert Join(gs, ",") == Join(gs[..2], ",") + "," + s[3..];
  }

  lemma FormatIndianNumberLakh()
    ensures FormatIndianNumber("100000") == "1,00,000"
  {
    FormatIndianNumberSixDigits("100000");
    assert "100000"[..1] == "1" && "100000"[1..3] == "00" && "100000"[3..] == "000";
  }

  // ---------------------------------------------------------------------------
  // formatCurrency and formatIndianCurrency

  /** `formatCurrency` (lib/utils.ts:8-16): groups the digits of the input, ignoring every other character. */
  function FormatCurrency(value: string): (r: string)
    ensures r == "" <==> value == ""
    ensures value != "" && Filter(value, IsDigit) == "" ==> r == "0"
    ensures Filter(value, IsDigit) != "" ==> r == Join(GroupDigits(Filter(value, IsDigit)), ",")
    ensures Filter(value, IsDigit) != "" ==> Filter(r, NotComma) == Filter(value, IsDigit)
  {
    if value == "" then ""
    else
      var digits := Filter(value, IsDigit);
      if digits != "" then
        FormatIndianNumberGroups(digits);
        FormatIndianNumberRoundTrip(digits);
        FormatIndianNumber(digits)
      else FormatIndianNumber(digits)
  }

  /** The characters of `s` before its first ".". */
  function UpToDot(s: string): (r: string)
    ensures |r| <= |s| && r == s[..|r|]
    ensures '.' !in r
    ensures |r| < |s| ==> s[|r|] == '.'
  {
    if s == [] || s[0] == '.' then "" else [s[0]] + UpToDot(s[1..])
  }

  /**
   * `const [intPart, decPart] = fixed.split(".")`: intPart is the text before
   * the first "." (all of it when there is none), decPart the text between
   * that "." and the next one or the end, and None when there is no ".".
   */
  function SplitDot(fixed: string): (parts: (string, Option<string>))
    ensures '.' !in parts.0
    ensures parts.1.None? <==> '.' !in fixed
    ensures parts.1.None? ==> parts.0 == fixed
    ensures parts.1.Some? ==> '.' !in parts.1.value && parts.0 + "." + parts.1.value <= fixed
    ensures parts.1.Some? && |parts.0| + 1 + |parts.1.value| < |fixed| ==>
      fixed[|parts.0| + 1 + |parts.1.value|] == '.'
  {
    var intPart := UpToDot(fixed);
    if |intPart| == |fixed| then
      assert intPart == fixed;
      (intPart, None)
    else
      assert '.' in fixed;
      (intPart, Some(UpToDot(fixed[|intPart| + 1..])))
  }

  /**
   * `formatIndianCurrency` (lib/utils.ts:34-41), given the string `value.toFixed(decimals)`:
   * groups the integer part and appends a non-empty fractional part unchanged.
   */
  function FormatIndianCurrency(fixed: string): string {
    var (intPart, decPart) := SplitDot(fixed);
    var formattedInt := FormatIndianNumber(intPart);
    if decPart.Some? && decPart.value != "" then formattedInt + "." + decPart.value else formattedInt
  }

  lemma {:induction false} UpToDotPrefix(i: string, rest: string)
    requires '.' !in i
    ensures UpToDot(i + "." + rest) == i
  {
    if i != "" {
      assert (i + "." + rest)[1..] == i[1..] + "." + rest;
      UpToDotPrefix(i[1..], rest);
    }
  }

  lemma SplitDotFixed(i: string, f: string)
    requires '.' !in i && '.' !in f
    ensures SplitDot(i + "." + f) == (i, Some(f))
  {
    var s := i + "." + f;
    UpToDotPrefix(i, f);
    assert s[|i| + 1..] == f;
    UpToDotPrefix(f, "");
    assert f + "." + "" == f + ".";
    assert UpToDot(f) == f;
  }

  /** On a fixed-point numeral "i.f", only the integer part is grouped and "f" is kept verbatim. */
  lemma FormatIndianCurrencyFixed(i: string, f: string)
    requires AllDigits(i) && |i| >= 1 && AllDigits(f) && |f| >= 1
    ensures FormatIndianCurrency(i + "." + f) == FormatIndianNumber(i) + "." + f
    ensures Filter(FormatIndianCurrency(i + "." + f), NotComma) == i + "." + f
  {
    assert '.' !in i && '.' !in f;
    SplitDotFixed(i, f);
    var g := FormatIndianNumber(i);
    assert FormatIndianCurrency(i + "." + f) == g + "." + f;
    NoCommaInDigits(f);
    FormatIndianNumberRoundTrip(i);
    FilterConcat(g + ".", f, NotComma);
    FilterConcat(g, ".", NotComma);
    assert Filter(".", NotComma) == ".";
  }
}
