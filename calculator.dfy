/**
 * The calculator form of components/calculator.tsx: the keystroke filters
 * of the principal and rate fields, the ordered validation of
 * `handleCalculate`, the record it saves, and `handleReset`. Rendering,
 * toasts and scrolling are not modelled; the translation function only
 * chooses message texts, so errors are the translation keys themselves.
 */
module Calculator {
  import opened Text
  import opened Wrappers
  import opened Interest
  import opened Types
  import opened Storage
  import NumberFormat

  /** The largest principal the field accepts (components/calculator.tsx:64). */
  const MaxPrincipal: nat := 999999999

  predicate IsDigitOrDot(c: char) {
    IsDigit(c) || c == '.'
  }

  /** What the principal field may hold: digits denoting at most 999999999, or nothing. */
  predicate PrincipalFieldOk(s: string) {
    AllDigits(s) && (s == "" || ValueOf(s) <= MaxPrincipal)
  }

  /** What the rate field may hold: digits and dots only. */
  predicate RateFieldOk(s: string) {
    forall i :: 0 <= i < |s| ==> IsDigitOrDot(s[i])
  }

  /**
   * `handlePrincipalChange` (components/calculator.tsx:62-67): keep only the
   * digits typed; take them if they are empty or denote at most 999999999,
   * otherwise keep the previous value. The field thus stays well-formed
   * whatever is typed.
   */
  function PrincipalInput(previous: string, typed: string): (r: string)
    ensures PrincipalFieldOk(previous) ==> PrincipalFieldOk(r)
    ensures PrincipalFieldOk(Filter(typed, IsDigit)) ==> r == Filter(typed, IsDigit)
    ensures !PrincipalFieldOk(Filter(typed, IsDigit)) ==> r == previous
  {
    var value := Filter(typed, IsDigit);
    if value == "" || ValueOf(value) <= MaxPrincipal then value else previous
  }

  /**
   * The field shows `formatCurrency(principal)` (components/calculator.tsx:180)
   * and reads edits back through the digit filter: handing the displayed text
   * back unchanged leaves the principal as it was.
   */
  lemma PrincipalDisplayRoundTrip(principal: string)
    requires PrincipalFieldOk(principal)
    ensures PrincipalInput(principal, NumberFormat.FormatCurrency(principal)) == principal
  {
    if principal != "" {
      var shown := NumberFormat.FormatCurrency(principal);
      assert Filter(principal, IsDigit) == principal;
      FilterNarrow(shown, NumberFormat.NotComma, IsDigit);
      assert Filter(shown, IsDigit) == principal;
    }
  }

  /**
   * The cap by length: up to nine digits are always accepted, and a numeral
   * of ten or more digits without a leading zero is always refused.
   */
  lemma PrincipalLengthRule(previous: string, typed: string)
    ensures |Filter(typed, IsDigit)| <= 9 ==> PrincipalInput(previous, typed) == Filter(typed, IsDigit)
    ensures Canonical(Filter(typed, IsDigit)) && |Filter(typed, IsDigit)| >= 10 ==> PrincipalInput(previous, typed) == previous
  {
    var digits := Filter(typed, IsDigit);
    assert Pow10(9) == 1000000000;
    ValueBelowPow10(digits);
    if |digits| <= 9 {
      Pow10Monotone(|digits|, 9);
    }
    if Canonical(digits) && |digits| >= 10 {
      CanonicalAtLeastPow10(digits);
      Pow10Monotone(9, |digits| - 1);
    }
  }

  lemma {:induction false} Pow10Monotone(m: nat, n: nat)
    requires m <= n
    ensures Pow10(m) <= Pow10(n)
    decreases n
  {
    if m < n {
      Pow10Monotone(m, n - 1);
    }
  }

  /** `handleInterestRateChange` (components/calculator.tsx:69-72): keep digits and dots, always accepted. */
  function RateInput(typed: string): (r: string)
    ensures RateFieldOk(r)
    ensures forall c :: c in r <==> c in typed && IsDigitOrDot(c)
    ensures RateFieldOk(typed) ==> r == typed
  {
    Filter(typed, IsDigitOrDot)
  }

  // ---------------------------------------------------------------------------
  // Number.parseFloat on the strings the fields can hold

  /** The longest prefix of `s` made of digits. */
  function LeadingDigits(s: string): (r: string)
    ensures r <= s && AllDigits(r)
    ensures |r| < |s| ==> !IsDigit(s[|r|])
  {
    if s == [] || !IsDigit(s[0]) then "" else [s[0]] + LeadingDigits(s[1..])
  }

  /**
   * `Number.parseFloat` on a string of digits and dots: the longest prefix
   * of the form digits, optionally "." and digits; None (NaN) when that
   * prefix has no digit at all. Values are exact: floating-point rounding is
   * not modelled.
   */
  function ParseDecimal(s: string): Option<real> {
    var intDigits := LeadingDigits(s);
    var rest := s[|intDigits|..];
    var fracDigits := if rest != [] && rest[0] == '.' then LeadingDigits(rest[1..]) else "";
    if intDigits == "" && fracDigits == "" then None
    else Some(ValueOf(intDigits) as real + ValueOf(fracDigits) as real / Pow10(|fracDigits|) as real)
  }

  /** A non-empty digit string parses to the number it denotes, never NaN. */
  lemma ParseDigits(s: string)
    requires AllDigits(s) && s != ""
    ensures ParseDecimal(s) == Some(ValueOf(s) as real)
  {
    assert LeadingDigits(s) == s;
    assert s[|s|..] == [];
  }

  /** The initial rate "1.5" parses to 1.5; a lone "." is NaN; parsing stops at a second ".". */
  lemma ParseDecimalExamples()
    ensures ParseDecimal("1.5") == Some(1.5)
    ensures ParseDecimal("2.5.1") == Some(2.5)
    ensures ParseDecimal(".") == None
  {
    assert "1.5"[1..] == ".5" && ".5"[1..] == "5" && "5"[1..] == "";
    assert LeadingDigits("1.5") == "1";
    assert LeadingDigits("5") == "5";
    assert "2.5.1"[1..] == ".5.1" && ".5.1"[1..] == "5.1" && "5.1"[1..] == ".1";
    assert LeadingDigits("2.5.1") == "2";
    assert LeadingDigits("5.1") == "5";
    assert ValueOf("1") == 1 && ValueOf("2") == 2 && ValueOf("5") == 5;
    assert "."[1..] == "";
  }

  // ---------------------------------------------------------------------------
  // handleCalculate

  /** The three messages of handleCalculate, by translation key. */
  datatype FormError = FillAllFields | EndDateError | InvalidNumbers

  /** The engine's inputs once validation has passed. */
  datatype Inputs = Inputs(principal: real, rate: real, start: Date, end: Date)

  /**
   * The validation chain of handleCalculate (components/calculator.tsx:74-108),
   * checked in order: a missing field, then an end before the start, then a
   * principal or rate that is NaN or not positive.
   */
  function Validate(principal: string, rate: string, start: Option<Date>, end: Option<Date>): (r: Result<Inputs, FormError>)
    ensures r == Failure(FillAllFields) <==> principal == "" || rate == "" || start.None? || end.None?
    ensures r == Failure(EndDateError) <==>
      principal != "" && rate != "" && start.Some? && end.Some? && Before(end.value, start.value)
    ensures r == Failure(InvalidNumbers) <==>
      && principal != "" && rate != "" && start.Some? && end.Some? && !Before(end.value, start.value)
      && !(ParseDecimal(principal).Some? && ParseDecimal(principal).value > 0.0
           && ParseDecimal(rate).Some? && ParseDecimal(rate).value > 0.0)
    ensures r.Success? ==>
      && start == Some(r.value.start) && end == Some(r.value.end) && !Before(r.value.end, r.value.start)
      && ParseDecimal(principal) == Some(r.value.principal) && r.value.principal > 0.0
      && ParseDecimal(rate) == Some(r.value.rate) && r.value.rate > 0.0
  {
    if principal == "" || rate == "" || start.None? || end.None? then Failure(FillAllFields)
    else if Before(end.value, start.value) then Failure(EndDateError)
    else
      var principalAmount := ParseDecimal(principal);
      var rateValue := ParseDecimal(rate);
      if principalAmount.None? || rateValue.None? || principalAmount.value <= 0.0 || rateValue.value <= 0.0 then
        Failure(InvalidNumbers)
      else
        Success(Inputs(principalAmount.value, rateValue.value, start.value, end.value))
  }

  /**
   * The record handleCalculate saves (components/calculator.tsx:133-144):
   * the engine's inputs and output unchanged, and total = principal + interest,
   * which for validated inputs is at least the principal.
   */
  function BuildRecord(id: string, timestamp: string, labelText: string, inputs: Inputs, isPercentMode: bool): (c: Calculation)
    ensures c.id == id && c.timestamp == timestamp && c.labelText == labelText
    ensures c.principal == inputs.principal && c.interestRate == inputs.rate && c.isPercentMode == isPercentMode
    ensures c.startDate == inputs.start && c.endDate == inputs.end
    ensures c.interest == InterestOf(inputs.principal, inputs.rate, inputs.start, inputs.end, isPercentMode)
    ensures c.total == c.principal + c.interest
    ensures inputs.principal > 0.0 && inputs.rate > 0.0 && !Before(inputs.end, inputs.start) ==>
      c.interest >= 0.0 && c.total >= c.principal
  {
    InterestSign(inputs.principal, inputs.rate, inputs.start, inputs.end, isPercentMode);
    var interest := InterestOf(inputs.principal, inputs.rate, inputs.start, inputs.end, isPercentMode);
    Calculation(id, timestamp, labelText, inputs.principal, inputs.rate, isPercentMode,
                inputs.start, inputs.end, interest, inputs.principal + interest)
  }

  /** The result panel's figures (components/calculator.tsx:118-123). */
  datatype CalcResult = CalcResult(principal: real, interest: real, total: real, monthlyRate: real)

  class CalculatorForm {
    var principal: string
    var interestRate: string
    var isPercentMode: bool
    var startDate: Option<Date>
    var endDate: Option<Date>
    var result: Option<CalcResult>
    /** The duration line under the dates. */
    var duration: string
    /** The language's `t`. */
    const translate: string -> string

    /**
     * The fields only ever hold what their filters let through, and with
     * both dates set the duration line is the phrase for them.
     */
    predicate Valid()
      reads this`principal, this`interestRate, this`startDate, this`endDate, this`duration
    {
      && PrincipalFieldOk(principal) && RateFieldOk(interestRate)
      && (startDate.Some? && endDate.Some? ==> duration == DurationText(startDate.value, endDate.value, translate))
    }

    /**
     * The initial state (components/calculator.tsx:41-52) once the duration
     * effect has run: both dates are today, the rate is "1.5".
     */
    constructor (today: Date, translate: string -> string)
      ensures Valid() && this.translate == translate
      ensures principal == "" && interestRate == "1.5" && !isPercentMode
      ensures startDate == Some(today) && endDate == Some(today) && result == None
      ensures duration == DurationText(today, today, translate)
    {
      principal := "";
      interestRate := "1.5";
      isPercentMode := false;
      startDate := Some(today);
      endDate := Some(today);
      result := None;
      this.translate := translate;
      new;
      duration := GetDurationText(today, today, translate);
    }

    /**
     * The effect of components/calculator.tsx:56-60, run after a date
     * changes: the duration is recomputed when both dates are set and is
     * otherwise left as it was.
     */
    method UpdateDuration()
      requires PrincipalFieldOk(principal) && RateFieldOk(interestRate)
      modifies this`duration
      ensures Valid()
      ensures startDate.Some? && endDate.Some? ==> duration == DurationText(startDate.value, endDate.value, translate)
      ensures startDate.None? || endDate.None? ==> duration == old(duration)
    {
      if startDate.Some? && endDate.Some? {
        duration := GetDurationText(startDate.value, endDate.value, translate);
      }
    }

    /** The start date picker's `setDate` (components/calculator.tsx:218), followed by the duration effect. */
    method SetStartDate(date: Option<Date>)
      requires Valid()
      modifies this`startDate, this`duration
      ensures Valid() && startDate == date
      ensures date.Some? && endDate.Some? ==> duration == DurationText(date.value, endDate.value, translate)
      ensures date.None? || endDate.None? ==> duration == old(duration)
    {
      startDate := date;
      UpdateDuration();
    }

    /** The end date picker's `setDate` (components/calculator.tsx:227), followed by the duration effect. */
    method SetEndDate(date: Option<Date>)
      requires Valid()
      modifies this`endDate, this`duration
      ensures Valid() && endDate == date
      ensures startDate.Some? && date.Some? ==> duration == DurationText(startDate.value, date.value, translate)
      ensures startDate.None? || date.None? ==> duration == old(duration)
    {
      endDate := date;
      UpdateDuration();
    }

    /** The mode switch (components/calculator.tsx:198): nothing is recomputed until the next calculation. */
    method SetPercentMode(on: bool)
      requires Valid()
      modifies this`isPercentMode
      ensures Valid() && isPercentMode == on
    {
      isPercentMode := on;
    }

    method HandlePrincipalChange(typed: string)
      requires Valid()
      modifies this`principal
      ensures Valid()
      ensures principal == PrincipalInput(old(principal), typed)
    {
      var value := Filter(typed, IsDigit);
      if value == "" || ValueOf(value) <= MaxPrincipal {
        principal := value;
      }
    }

    method HandleInterestRateChange(typed: string)
      requires Valid()
      modifies this`interestRate
      ensures Valid()
      ensures interestRate == RateInput(typed)
    {
      interestRate := Filter(typed, IsDigitOrDot);
    }

    /**
     * `handleCalculate`: on the first failing check nothing is computed or
     * saved; otherwise the result is shown and exactly one record, built
     * from the engine's output, is saved in front of the history.
     * `id`, `timestamp` and `labelText` come from the clock.
     */
    method HandleCalculate(store: HistoryStore, id: string, timestamp: string, labelText: string)
      returns (outcome: Result<Calculation, FormError>)
      modifies this`result, store
      ensures var v := Validate(principal, interestRate, startDate, endDate);
        && (v.Failure? ==> outcome == Failure(v.error) && result == old(result) && store.slot == old(store.slot))
        && (v.Success? ==>
              && outcome == Success(BuildRecord(id, timestamp, labelText, v.value, isPercentMode))
              && store.slot == Present(Prepend(old(store.Contents()), outcome.value))
              && result == Some(CalcResult(outcome.value.principal, outcome.value.interest, outcome.value.total,
                                           MonthlyRate(v.value.principal, v.value.rate, isPercentMode))))
    {
      ghost var v := Validate(principal, interestRate, startDate, endDate);
      if principal == "" || interestRate == "" || startDate.None? || endDate.None? {
        assert v == Failure(FillAllFields);
        return Failure(FillAllFields);
      }
      if Before(endDate.value, startDate.value) {
        assert v == Failure(EndDateError);
        return Failure(EndDateError);
      }
      var principalAmount := ParseDecimal(principal);
      var rate := ParseDecimal(interestRate);
      if principalAmount.None? || rate.None? || principalAmount.value <= 0.0 || rate.value <= 0.0 {
        assert v == Failure(InvalidNumbers);
        return Failure(InvalidNumbers);
      }
      assert v == Success(Inputs(principalAmount.value, rate.value, startDate.value, endDate.value));

      var interest, monthlyRate := CalculateInterest(principalAmount.value, rate.value,
                                                     startDate.value, endDate.value, isPercentMode);
      result := Some(CalcResult(principalAmount.value, interest, principalAmount.value + interest, monthlyRate));

      var calculation := Calculation(id, timestamp, labelText, principalAmount.value, rate.value, isPercentMode,
                                     startDate.value, endDate.value, interest, principalAmount.value + interest);
      assert calculation == BuildRecord(id, timestamp, labelText, v.value, isPercentMode);
      store.SaveCalculation(calculation);
      outcome := Success(calculation);
    }

    /**
     * `handleReset` (components/calculator.tsx:154-161), followed by the
     * duration effect: clears both fields (the rate too, not back to the
     * initial "1.5"), both dates become today, and the result is hidden.
     */
    method HandleReset(today: Date)
      modifies this
      ensures Valid()
      ensures principal == "" && interestRate == "" && !isPercentMode
      ensures startDate == Some(today) && endDate == Some(today) && result == None
      ensures duration == DurationText(today, today, translate)
    {
      principal := "";
      interestRate := "";
      isPercentMode := false;
      startDate := Some(today);
      endDate := Some(today);
      result := None;
      UpdateDuration();
    }
  }
}
