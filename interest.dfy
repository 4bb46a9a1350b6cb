/**
 * The interest engine of lib/utils.ts: the elapsed (years, months, days)
 * between two calendar dates with a fixed 30-day month borrow, simple
 * interest under the two rate conventions, and the duration phrase.
 *
 * The borrow keeps `360 * year + 30 * month + day` unchanged, so the elapsed
 * duration is exactly the 30/360 day count between the dates (`Serial`);
 * that is the independent reference the duration and the interest are
 * proved against. The duration phrase is stated over the elapsed components.
 */
module Interest {
  import opened Text

  datatype YearMonthDay = YMD(year: int, month: int, day: int)

  /** A date as the engine reads it: `getFullYear()`, `getMonth() + 1` (1..12) and `getDate()` (1..31). */
  type Date = d: YearMonthDay | 1 <= d.month <= 12 && 1 <= d.day <= 31 witness YMD(1970, 1, 1)

  /** `a < b` on dates, field by field. */
  predicate Before(a: Date, b: Date) {
    a.year < b.year || (a.year == b.year && (a.month < b.month || (a.month == b.month && a.day < b.day)))
  }

  /** The 30/360 day number of a date: every month has 30 days and every year 360. */
  function Serial(d: Date): int {
    d.year * 360 + d.month * 30 + d.day
  }

  datatype Duration = Duration(years: int, months: int, days: int)

  /**
   * The duration both `calculateInterest` and `getDurationText` compute
   * (lib/utils.ts:59-73): borrow 30 days from the month when the end day is
   * earlier, then 12 months from the year when the end month is earlier.
   */
  function Elapsed(start: Date, end: Date): (d: Duration)
    ensures 0 <= d.days <= 30 && 0 <= d.months <= 11
    ensures d.years * 360 + d.months * 30 + d.days == Serial(end) - Serial(start)
  {
    var dayBorrow := end.day < start.day;
    var endDay := if dayBorrow then end.day + 30 else end.day;
    var endMonth := if dayBorrow then end.month - 1 else end.month;
    var monthBorrow := endMonth < start.month;
    var endMonth' := if monthBorrow then endMonth + 12 else endMonth;
    var endYear := if monthBorrow then end.year - 1 else end.year;
    Duration(endYear - start.year, endMonth' - start.month, endDay - start.day)
  }

  /** `years * 12 + months + days / 30` */
  function TotalMonths(d: Duration): real {
    (d.years * 12 + d.months) as real + d.days as real / 30.0
  }

  /** The number of 30-day months between the dates, by the 30/360 count. */
  lemma {:induction false} TotalMonthsIsDayCount(start: Date, end: Date)
    ensures TotalMonths(Elapsed(start, end)) == (Serial(end) - Serial(start)) as real / 30.0
  {
    var d := Elapsed(start, end);
    assert (d.years * 12 + d.months) * 30 + d.days == Serial(end) - Serial(start);
  }

  /** Simple interest (lib/utils.ts:83-91): rate in percent per year, or in rupees per hundred per month. */
  function InterestOf(principal: real, rate: real, start: Date, end: Date, isPercentMode: bool): real {
    var totalMonths := TotalMonths(Elapsed(start, end));
    if isPercentMode then principal * rate * totalMonths / (100.0 * 12.0)
    else principal * rate * totalMonths / 100.0
  }

  /**
   * The monthly rate calculateInterest returns (lib/utils.ts:79-81); in
   * rupee mode it divides by the principal. handleCalculate keeps it in the
   * result, and the panel that would show it is commented out.
   */
  function MonthlyRate(principal: real, rate: real, isPercentMode: bool): real
    requires isPercentMode || principal != 0.0
  {
    if isPercentMode then rate / 12.0 else ((rate * 12.0) / principal) * 100.0
  }

  /**
   * `calculateInterest` (lib/utils.ts:43-94), with the source's local
   * reassignments. Its interest is simple interest over the 30/360 day
   * count between the dates, in either rate convention, with no clamp when
   * the end precedes the start.
   */
  method CalculateInterest(principal: real, rate: real, startDate: Date, endDate: Date, isPercentMode: bool)
    returns (interest: real, monthlyRate: real)
    requires isPercentMode || principal != 0.0
    ensures interest == InterestOf(principal, rate, startDate, endDate, isPercentMode)
    ensures var dayCount := (Serial(endDate) - Serial(startDate)) as real;
      interest == if isPercentMode then principal * rate * dayCount / 36000.0
                  else principal * rate * dayCount / 3000.0
    ensures monthlyRate == MonthlyRate(principal, rate, isPercentMode)
  {
    var endDay := endDate.day;
    var endMonth := endDate.month;
    var endYear := endDate.year;
    var startDay, startMonth, startYear := startDate.day, startDate.month, startDate.year;

    if endDay < startDay {
      endDay := endDay + 30;
      endMonth := endMonth - 1;
    }
    if endMonth < startMonth {
      endMonth := endMonth + 12;
      endYear := endYear - 1;
    }

    var days := endDay - startDay;
    var months := endMonth - startMonth;
    var years := endYear - startYear;
    var totalMonths := (years * 12 + months) as real + days as real / 30.0;
    assert Duration(years, months, days) == Elapsed(startDate, endDate);

    monthlyRate := if isPercentMode then rate / 12.0 else ((rate * 12.0) / principal) * 100.0;

    interest := 0.0;
    if isPercentMode {
      interest := (principal * rate * totalMonths) / (100.0 * 12.0);
    } else {
      interest := (principal * rate * totalMonths) / 100.0;
    }

    assert totalMonths == TotalMonths(Elapsed(startDate, endDate));
    InterestIsDayCount(principal, rate, startDate, endDate, isPercentMode);
  }

  /** Interest in both conventions is proportional to the 30/360 day count. */
  lemma InterestIsDayCount(principal: real, rate: real, start: Date, end: Date, isPercentMode: bool)
    ensures var dayCount := (Serial(end) - Serial(start)) as real;
      InterestOf(principal, rate, start, end, isPercentMode)
        == if isPercentMode then principal * rate * dayCount / 36000.0 else principal * rate * dayCount / 3000.0
  {
    TotalMonthsIsDayCount(start, end);
    var t := TotalMonths(Elapsed(start, end));
    var dayCount := (Serial(end) - Serial(start)) as real;
    var pr := principal * rate;
    assert dayCount == 30.0 * t;
    assert pr * dayCount == 30.0 * (pr * t);
  }

  // ---------------------------------------------------------------------------
  // Properties of the duration and the interest

  /** Field-by-field order agrees with the 30/360 count: a later date never has a smaller serial. */
  lemma BeforeSerial(start: Date, end: Date)
    ensures Before(end, start) ==> Serial(end) <= Serial(start)
    ensures !Before(end, start) ==> Serial(start) <= Serial(end)
  {
  }

  /** The years component is the only one that can be negative, and only when the end precedes the start. */
  lemma ElapsedYears(start: Date, end: Date)
    ensures !Before(end, start) ==> Elapsed(start, end).years >= 0
  {
  }

  /** Equal dates give a zero duration. */
  lemma SameDateZero(d: Date)
    ensures Elapsed(d, d) == Duration(0, 0, 0)
  {
  }

  /** Dates with the same 30/360 serial (equal dates among them) accrue no interest. */
  lemma ZeroInterest(start: Date, end: Date, principal: real, rate: real, isPercentMode: bool)
    requires Serial(start) == Serial(end)
    ensures TotalMonths(Elapsed(start, end)) == 0.0
    ensures InterestOf(principal, rate, start, end, isPercentMode) == 0.0
  {
    TotalMonthsIsDayCount(start, end);
    InterestIsDayCount(principal, rate, start, end, isPercentMode);
  }

  /**
   * Same serial does not mean a zero duration: from Jan 1 back to the
   * previous Dec 31 the borrow gives -1 year, 11 months and 30 days, which
   * still sums to zero months.
   */
  lemma SameSerialNonZeroDuration(year: int)
    ensures Serial(YMD(year, 1, 1)) == Serial(YMD(year - 1, 12, 31))
    ensures Elapsed(YMD(year, 1, 1), YMD(year - 1, 12, 31)) == Duration(-1, 11, 30)
  {
  }

  /** The 30-day borrow makes Jan 31 to Feb 1 a zero duration, so it accrues no interest. */
  lemma JanuaryThirtyFirstToFebruaryFirst(year: int, principal: real, rate: real, isPercentMode: bool)
    ensures Elapsed(YMD(year, 1, 31), YMD(year, 2, 1)) == Duration(0, 0, 0)
    ensures InterestOf(principal, rate, YMD(year, 1, 31), YMD(year, 2, 1), isPercentMode) == 0.0
  {
    ZeroInterest(YMD(year, 1, 31), YMD(year, 2, 1), principal, rate, isPercentMode);
  }

  /** A percent-per-year rate r accrues what a rupees-per-hundred-per-month rate r / 12 does. */
  lemma ModeEquivalence(principal: real, rate: real, start: Date, end: Date)
    ensures InterestOf(principal, rate, start, end, true) == InterestOf(principal, rate / 12.0, start, end, false)
  {
    var t := TotalMonths(Elapsed(start, end));
    assert principal * rate * t / (100.0 * 12.0) == principal * (rate / 12.0) * t / 100.0 by {
      assert principal * (rate / 12.0) * t == principal * rate * t / 12.0;
    }
  }

  /**
   * What the returned monthly rate means. In percent mode it is the share of
   * the principal, in percent, that accrues per 30-day month. In rupee mode
   * the per-month share is the rate itself, and the returned figure is instead
   * twelve times the rate rescaled by the principal: the yearly interest on
   * the principal as a percentage of a hundred squared, which changes with
   * the principal.
   */
  lemma MonthlyRateMeaning(principal: real, rate: real, start: Date, end: Date)
    requires principal != 0.0
    ensures MonthlyRate(principal, rate, true) * 12.0 == rate
    ensures InterestOf(principal, rate, start, end, true)
      == principal * MonthlyRate(principal, rate, true) / 100.0 * TotalMonths(Elapsed(start, end))
    ensures InterestOf(principal, rate, start, end, false) == principal * rate / 100.0 * TotalMonths(Elapsed(start, end))
    ensures principal * MonthlyRate(principal, rate, false) == rate * 1200.0
  {
    var t := TotalMonths(Elapsed(start, end));
    PerMonthShare(principal, rate, t);
    BackComputedRate(principal, rate);
  }

  lemma PerMonthShare(p: real, r: real, t: real)
    ensures p * r * t / (100.0 * 12.0) == p * (r / 12.0) / 100.0 * t
    ensures p * r * t / 100.0 == p * r / 100.0 * t
  {
    assert p * r * t == (p * r) * t;
    assert p * (r / 12.0) == (p * r) / 12.0;
  }

  lemma BackComputedRate(p: real, r: real)
    requires p != 0.0
    ensures p * (((r * 12.0) / p) * 100.0) == r * 1200.0
  {
    var q := (r * 12.0) / p;
    assert p * q == r * 12.0;
    assert p * (q * 100.0) == (p * q) * 100.0;
  }

  /**
   * With a positive principal and rate, interest is non-negative when the end
   * does not precede the start, and non-positive (no clamp) when it does.
   */
  lemma InterestSign(principal: real, rate: real, start: Date, end: Date, isPercentMode: bool)
    ensures principal > 0.0 && rate > 0.0 && !Before(end, start) ==> InterestOf(principal, rate, start, end, isPercentMode) >= 0.0
    ensures principal > 0.0 && rate > 0.0 && Before(end, start) ==> InterestOf(principal, rate, start, end, isPercentMode) <= 0.0
  {
    InterestIsDayCount(principal, rate, start, end, isPercentMode);
    BeforeSerial(start, end);
    var pr := principal * rate;
    var dayCount := (Serial(end) - Serial(start)) as real;
    if principal <= 0.0 || rate <= 0.0 {
    } else if Before(end, start) {
      assert pr > 0.0;
      assert pr * dayCount <= 0.0;
    } else {
      assert pr > 0.0;
      assert pr * dayCount >= 0.0;
    }
  }

  /** An end date before the start yields negative interest: calculateInterest applies no clamp. */
  lemma NegativeInterestWithoutClamp()
    ensures Before(YMD(2024, 1, 5), YMD(2024, 3, 10))
    ensures InterestOf(1000.0, 12.0, YMD(2024, 3, 10), YMD(2024, 1, 5), true) < 0.0
  {
    InterestIsDayCount(1000.0, 12.0, YMD(2024, 3, 10), YMD(2024, 1, 5), true);
  }

  /** 2024-01-15 to 2024-02-10 borrows a month: 25 days, 25/30 of a month (not a 26-day calendar count). */
  lemma PartialMonthExample()
    ensures Elapsed(YMD(2024, 1, 15), YMD(2024, 2, 10)) == Duration(0, 0, 25)
    ensures TotalMonths(Elapsed(YMD(2024, 1, 15), YMD(2024, 2, 10))) == 25.0 / 30.0
  {
  }

  /** 100000 at 18% a year over 2024-01-01 to 2025-01-01 (twelve months) accrues 18000. */
  lemma PercentModeExample()
    ensures TotalMonths(Elapsed(YMD(2024, 1, 1), YMD(2025, 1, 1))) == 12.0
    ensures InterestOf(100000.0, 18.0, YMD(2024, 1, 1), YMD(2025, 1, 1), true) == 18000.0
  {
    InterestIsDayCount(100000.0, 18.0, YMD(2024, 1, 1), YMD(2025, 1, 1), true);
  }

  /** 100000 at 1.5 rupees per hundred per month over one month accrues 1500. */
  lemma RupeeModeExample()
    ensures InterestOf(100000.0, 1.5, YMD(2024, 1, 1), YMD(2024, 2, 1), false) == 1500.0
  {
    InterestIsDayCount(100000.0, 1.5, YMD(2024, 1, 1), YMD(2024, 2, 1), false);
  }

  // ---------------------------------------------------------------------------
  // The duration phrase of getDurationText

  datatype Unit = Year | Month | Day

  /** The translation key of a unit, singular or plural. */
  function UnitKey(u: Unit, singular: bool): string {
    match u
    case Year => if singular then "year" else "years"
    case Month => if singular then "month" else "months"
    case Day => if singular then "day" else "days"
  }

  function Amount(d: Duration, u: Unit): int {
    match u
    case Year => d.years
    case Month => d.months
    case Day => d.days
  }

  function Rank(u: Unit): nat {
    match u
    case Year => 0
    case Month => 1
    case Day => 2
  }

  /** `${n} ${n === 1 ? t(unit) : t(units)}`: the unit is singular exactly when the amount is 1. */
  function Phrase(n: nat, u: Unit, t: string -> string): string {
    NatToString(n) + " " + t(UnitKey(u, n == 1))
  }

  /** The units getDurationText mentions (lib/utils.ts:130-142). */
  function Shown(d: Duration): seq<Unit> {
    var yearsAndMonths := (if d.years > 0 then [Year] else []) + (if d.months > 0 then [Month] else []);
    yearsAndMonths + (if d.days > 0 || yearsAndMonths == [] then [Day] else [])
  }

  /**
   * The rules of the phrase: never empty, always in the order years, months,
   * days; a unit appears exactly when its amount is positive, except that
   * the days appear when nothing else does.
   */
  lemma ShownRules(d: Duration)
    ensures Shown(d) != []
    ensures forall i, j :: 0 <= i < j < |Shown(d)| ==> Rank(Shown(d)[i]) < Rank(Shown(d)[j])
    ensures forall u :: u in Shown(d) <==> Amount(d, u) > 0 || (u == Day && d.years <= 0 && d.months <= 0)
  {
  }

  /**
   * The phrases getDurationText pushes (lib/utils.ts:130-142): the years
   * phrase when there are years, then the months phrase when there are
   * months, then the days phrase when there are days or nothing came before.
   */
  function Phrases(d: Duration, t: string -> string): (ps: seq<string>)
    requires d.years >= 0 && d.months >= 0 && d.days >= 0
    ensures ps ==
      (if d.years > 0 then [Phrase(d.years, Year, t)] else [])
      + (if d.months > 0 then [Phrase(d.months, Month, t)] else [])
      + (if d.days > 0 || (d.years == 0 && d.months == 0) then [Phrase(d.days, Day, t)] else [])
  {
    var ps := seq(|Shown(d)|, i requires 0 <= i < |Shown(d)| => Phrase(Amount(d, Shown(d)[i]), Shown(d)[i], t));
    PhrasesOfShown(d, t, ps);
    ps
  }

  /** One phrase per shown unit, in order, is the three conditional parts. */
  lemma PhrasesOfShown(d: Duration, t: string -> string, ps: seq<string>)
    requires d.years >= 0 && d.months >= 0 && d.days >= 0
    requires |ps| == |Shown(d)|
    requires forall i :: 0 <= i < |ps| ==> ps[i] == Phrase(Amount(d, Shown(d)[i]), Shown(d)[i], t)
    ensures ps ==
      (if d.years > 0 then [Phrase(d.years, Year, t)] else [])
      + (if d.months > 0 then [Phrase(d.months, Month, t)] else [])
      + (if d.days > 0 || (d.years == 0 && d.months == 0) then [Phrase(d.days, Day, t)] else [])
  {
    var us := Shown(d);
    if d.years > 0 {
      if d.months > 0 {
        if d.days > 0 { assert us == [Year, Month, Day]; } else { assert us == [Year, Month]; }
      } else {
        if d.days > 0 { assert us == [Year, Day]; } else { assert us == [Year]; }
      }
    } else {
      if d.months > 0 {
        if d.days > 0 { assert us == [Month, Day]; } else { assert us == [Month]; }
      } else {
        assert us == [Day];
      }
    }
  }

  /** What `getDurationText` returns (lib/utils.ts:96-145). */
  function DurationText(start: Date, end: Date, t: string -> string): string {
    if Before(end, start) then "0 " + t("days")
    else
      ElapsedYears(start, end);
      Join(Phrases(Elapsed(start, end), t), ", ")
  }

  /** An end before the start reads like a zero duration: "0 days", the phrase of equal dates. */
  lemma DurationTextClamp(start: Date, end: Date, t: string -> string)
    requires Before(end, start)
    ensures DurationText(start, end, t) == DurationText(start, start, t) == Phrase(0, Day, t)
  {
    var d := Elapsed(start, start);
    assert Shown(d) == [Day];
    assert Phrases(d, t) == [Phrase(0, Day, t)];
    assert NatToString(0) == "0";
  }

  /**
   * `getDurationText` with its local reassignments and the `parts` array:
   * "0 days" for an end before the start, otherwise the phrases of the
   * positive components of the same duration `calculateInterest` uses.
   */
  method GetDurationText(startDate: Date, endDate: Date, t: string -> string) returns (text: string)
    ensures Before(endDate, startDate) ==> text == "0 " + t("days")
    ensures !Before(endDate, startDate) ==> text == Join(Phrases(Elapsed(startDate, endDate), t), ", ")
  {
    if Before(endDate, startDate) {
      return "0 " + t("days");
    }

    var endDay := endDate.day;
    var endMonth := endDate.month;
    var endYear := endDate.year;
    var startDay, startMonth, startYear := startDate.day, startDate.month, startDate.year;

    if endDay < startDay {
      endDay := endDay + 30;
      endMonth := endMonth - 1;
    }
    if endMonth < startMonth {
      endMonth := endMonth + 12;
      endYear := endYear - 1;
    }

    var days := endDay - startDay;
    var months := endMonth - startMonth;
    var years := endYear - startYear;
    ghost var d := Elapsed(startDate, endDate);
    assert d == Duration(years, months, days);
    ElapsedYears(startDate, endDate);


    ghost var yearPart := if years > 0 then [Phrase(years, Year, t)] else [];
    ghost var monthPart := if months > 0 then [Phrase(months, Month, t)] else [];
    ghost var dayPart := if days > 0 || (years == 0 && months == 0) then [Phrase(days, Day, t)] else [];

    var parts: seq<string> := [];
    if years > 0 {
      parts := parts + [NatToString(years) + " " + (if years == 1 then t("year") else t("years"))];
    }
    assert parts == yearPart;
    if months > 0 {
      parts := parts + [NatToString(months) + " " + (if months == 1 then t("month") else t("months"))];
    }
    assert parts == yearPart + monthPart;
    if days > 0 || |parts| == 0 {
      parts := parts + [NatToString(days) + " " + (if days == 1 then t("day") else t("days"))];
    }
    assert parts == yearPart + monthPart + dayPart;
    assert parts == Phrases(d, t);
    text := Join(parts, ", ");
  }
}
