/**
 * The year -> month -> day state machine of
 * components/hierarchical-date-picker.tsx: the lists each view offers, the
 * selection and back transitions, keyboard focus movement, and the reset
 * when the picker opens. Rendering, DOM focus and the popover's tab trap
 * are not modelled.
 */
module DatePicker {
  import opened Wrappers
  import opened Interest

  datatype View = YearView | MonthView | DayView

  /** The keys handleKeyDown reacts to; every other key is `Other`. */
  datatype Key = ArrowRight | ArrowLeft | ArrowDown | ArrowUp | Enter | Space | Escape | Home | End | Other

  // ---------------------------------------------------------------------------
  // The lists of the three views

  /** `years` (components/hierarchical-date-picker.tsx:79-82): newest first; `Array.from` turns a negative length into none. */
  function Years(minYear: int, maxYear: int): seq<int> {
    var n := maxYear - minYear + 1;
    seq(if n > 0 then n else 0, i => maxYear - i)
  }

  /** The year list offers each year of [minYear, maxYear] exactly once, in decreasing order. */
  lemma YearsContents(minYear: int, maxYear: int)
    ensures |Years(minYear, maxYear)| == if minYear <= maxYear then maxYear - minYear + 1 else 0
    ensures forall y :: y in Years(minYear, maxYear) <==> minYear <= y <= maxYear
    ensures forall i, j :: 0 <= i < j < |Years(minYear, maxYear)| ==> Years(minYear, maxYear)[i] > Years(minYear, maxYear)[j]
    ensures minYear <= maxYear ==> Years(minYear, maxYear)[0] == maxYear
  {
    var ys := Years(minYear, maxYear);
    forall y | minYear <= y <= maxYear ensures y in ys {
      assert ys[maxYear - y] == y;
    }
  }

  /** `months` (components/hierarchical-date-picker.tsx:85): the month indices 0 to 11. */
  function Months(): seq<int> {
    seq(12, i => i)
  }

  lemma MonthsContents()
    ensures |Months()| == 12
    ensures forall m :: m in Months() <==> 0 <= m < 12
  {
    forall m | 0 <= m < 12 ensures m in Months() {
      assert Months()[m] == m;
    }
  }

  predicate IsLeapYear(year: int) {
    (year % 4 == 0 && year % 100 != 0) || year % 400 == 0
  }

  /** The Gregorian length of month `month` (0 = January) of `year`. */
  function DaysInMonth(year: int, month: int): (n: int)
    requires 0 <= month < 12
    ensures 28 <= n <= 31
  {
    if month == 1 then (if IsLeapYear(year) then 29 else 28)
    else if month == 3 || month == 5 || month == 8 || month == 10 then 30
    else 31
  }

  /** `getDaysArray` (components/hierarchical-date-picker.tsx:88-93): 1 to the month's length, or nothing without a year and a month. */
  function DaysArray(selectedYear: Option<int>, selectedMonth: Option<int>): seq<int>
    requires selectedMonth.Some? ==> 0 <= selectedMonth.value < 12
  {
    if selectedYear.None? || selectedMonth.None? then []
    else seq(DaysInMonth(selectedYear.value, selectedMonth.value), i => i + 1)
  }

  lemma DaysArrayContents(selectedYear: Option<int>, selectedMonth: Option<int>)
    requires selectedMonth.Some? ==> 0 <= selectedMonth.value < 12
    ensures selectedYear.None? || selectedMonth.None? ==> DaysArray(selectedYear, selectedMonth) == []
    ensures selectedYear.Some? && selectedMonth.Some? ==>
      |DaysArray(selectedYear, selectedMonth)| == DaysInMonth(selectedYear.value, selectedMonth.value)
      && forall d :: d in DaysArray(selectedYear, selectedMonth) <==> 1 <= d <= DaysInMonth(selectedYear.value, selectedMonth.value)
  {
    if selectedYear.Some? && selectedMonth.Some? {
      var ds := DaysArray(selectedYear, selectedMonth);
      forall d | 1 <= d <= DaysInMonth(selectedYear.value, selectedMonth.value) ensures d in ds {
        assert ds[d - 1] == d;
      }
    }
  }

  // ---------------------------------------------------------------------------
  // Keyboard focus

  /** Items per grid row: 7 in the day calendar, 3 in the year and month grids. */
  function RowSize(view: View): int {
    if view == DayView then 7 else 3
  }

  /** The index an arrow key moves focus to (components/hierarchical-date-picker.tsx:146-166); other keys leave it. */
  function MoveFocus(key: Key, view: View, count: int, current: int): int {
    match key
    case ArrowRight => if current + 1 < count - 1 then current + 1 else count - 1
    case ArrowLeft => if current - 1 > 0 then current - 1 else 0
    case ArrowDown => if current + RowSize(view) < count - 1 then current + RowSize(view) else count - 1
    case ArrowUp => if current - RowSize(view) > 0 then current - RowSize(view) else 0
    case _ => current
  }

  /**
   * Focus never leaves the list: from an index in [0, count) every key lands
   * in [0, count), moving forward for Right and Down and backward for Left
   * and Up, by one item or one row where that stays inside the list and
   * otherwise onto its last or first item.
   */
  lemma MoveFocusInRange(key: Key, view: View, count: int, current: int)
    requires 0 <= current < count
    ensures 0 <= MoveFocus(key, view, count, current) < count
    ensures key == ArrowRight || key == ArrowDown ==> current <= MoveFocus(key, view, count, current)
    ensures key == ArrowLeft || key == ArrowUp ==> MoveFocus(key, view, count, current) <= current
    ensures key == ArrowRight || key == ArrowLeft ==>
      MoveFocus(key, view, count, current) - current <= 1 && current - MoveFocus(key, view, count, current) <= 1
    ensures MoveFocus(key, view, count, current) - current <= RowSize(view)
      && current - MoveFocus(key, view, count, current) <= RowSize(view)
    ensures key == ArrowRight && current + 1 < count ==> MoveFocus(key, view, count, current) == current + 1
    ensures key == ArrowLeft && current >= 1 ==> MoveFocus(key, view, count, current) == current - 1
    ensures key == ArrowDown && current + RowSize(view) < count ==> MoveFocus(key, view, count, current) == current + RowSize(view)
    ensures key == ArrowUp && current >= RowSize(view) ==> MoveFocus(key, view, count, current) == current - RowSize(view)
    ensures key == ArrowDown && current + RowSize(view) >= count ==> MoveFocus(key, view, count, current) == count - 1
    ensures key == ArrowUp && current < RowSize(view) ==> MoveFocus(key, view, count, current) == 0
  {
  }

  // ---------------------------------------------------------------------------
  // The picker

  class Picker {
    const minYear: int
    const maxYear: int
    /** The bound `date` prop; `setDate` writes it. */
    var date: Option<Date>
    var isOpen: bool
    var view: View
    var selectedYear: Option<int>
    /** 0 = January, as `getMonth()` and the month list give it. */
    var selectedMonth: Option<int>
    var selectedDay: Option<int>
    var focusedItem: Option<int>

    predicate Valid()
      reads this
    {
      selectedMonth.Some? ==> 0 <= selectedMonth.value < 12
    }

    /** The items the current view renders and passes to handleKeyDown. */
    function Items(): seq<int>
      reads this
      requires Valid()
    {
      match view
      case YearView => Years(minYear, maxYear)
      case MonthView => Months()
      case DayView => DaysArray(selectedYear, selectedMonth)
    }

    /** The initial state (components/hierarchical-date-picker.tsx:35-46): closed, on the year view, selections from `date`. */
    constructor (date: Option<Date>, minYear: int, maxYear: int)
      ensures Valid()
      ensures this.date == date && this.minYear == minYear && this.maxYear == maxYear
      ensures !isOpen && view == YearView && focusedItem == None
      ensures date.Some? ==> selectedYear == Some(date.value.year) && selectedMonth == Some(date.value.month - 1)
                             && selectedDay == Some(date.value.day)
      ensures date.None? ==> selectedYear == None && selectedMonth == None && selectedDay == None
    {
      this.date := date;
      this.minYear := minYear;
      this.maxYear := maxYear;
      isOpen := false;
      view := YearView;
      if date.Some? {
        selectedYear, selectedMonth, selectedDay := Some(date.value.year), Some(date.value.month - 1), Some(date.value.day);
      } else {
        selectedYear, selectedMonth, selectedDay := None, None, None;
      }
      focusedItem := None;
    }

    /** The state the reset effect leaves: year view, selections read off the bound date. */
    predicate ResetFromDate()
      reads this
    {
      && view == YearView
      && (date.Some? ==> selectedYear == Some(date.value.year) && selectedMonth == Some(date.value.month - 1)
                         && selectedDay == Some(date.value.day))
      && (date.None? ==> selectedYear == None && selectedMonth == None && selectedDay == None)
    }

    /**
     * The effect of components/hierarchical-date-picker.tsx:50-64 while the
     * picker is open: back to the year view, selections taken from the bound
     * date or cleared when there is none.
     */
    method ResetSelection()
      modifies this`selectedYear, this`selectedMonth, this`selectedDay, this`view
      ensures Valid() && ResetFromDate()
    {
      if date.Some? {
        selectedYear := Some(date.value.year);
        selectedMonth := Some(date.value.month - 1);
        selectedDay := Some(date.value.day);
        view := YearView;
      } else {
        selectedYear := None;
        selectedMonth := None;
        selectedDay := None;
        view := YearView;
      }
    }

    /**
     * The popover's `onOpenChange` (components/hierarchical-date-picker.tsx:397);
     * the reset effect runs when `isOpen` turns true, since it is one of the
     * effect's dependencies.
     */
    method HandleOpenChange(open: bool)
      requires Valid()
      modifies this`isOpen, this`selectedYear, this`selectedMonth, this`selectedDay, this`view
      ensures Valid() && isOpen == open
      ensures open && !old(isOpen) ==> ResetFromDate()
      ensures !(open && !old(isOpen)) ==>
        unchanged(this`view, this`selectedYear, this`selectedMonth, this`selectedDay)
    {
      var wasOpen := isOpen;
      isOpen := open;
      if open && !wasOpen {
        ResetSelection();
      }
    }

    /**
     * The parent passing a new `date` prop: the reset effect, which also
     * depends on `date`, runs again when the picker is open.
     */
    method ReceiveDate(newDate: Option<Date>)
      requires Valid()
      modifies this`date, this`selectedYear, this`selectedMonth, this`selectedDay, this`view
      ensures Valid() && date == newDate
      ensures isOpen && newDate != old(date) ==> ResetFromDate()
      ensures !(isOpen && newDate != old(date)) ==>
        unchanged(this`view, this`selectedYear, this`selectedMonth, this`selectedDay)
    {
      var changed := newDate != date;
      date := newDate;
      if isOpen && changed {
        ResetSelection();
      }
    }

    /** `handleYearSelect` (components/hierarchical-date-picker.tsx:102-106). */
    method HandleYearSelect(year: int)
      requires Valid()
      modifies this`selectedYear, this`view, this`focusedItem
      ensures Valid()
      ensures selectedYear == Some(year) && view == MonthView && focusedItem == None
    {
      selectedYear := Some(year);
      view := MonthView;
      focusedItem := None;
    }

    /** `handleMonthSelect` (components/hierarchical-date-picker.tsx:109-113). */
    method HandleMonthSelect(month: int)
      requires Valid() && 0 <= month < 12
      modifies this`selectedMonth, this`view, this`focusedItem
      ensures Valid()
      ensures selectedMonth == Some(month) && view == DayView && focusedItem == None
    {
      selectedMonth := Some(month);
      view := DayView;
      focusedItem := None;
    }

    /**
     * `handleDaySelect` (components/hierarchical-date-picker.tsx:116-126): the
     * day is recorded; only with a year and a month selected is the date
     * emitted and the picker closed.
     */
    method HandleDaySelect(day: int)
      requires Valid() && 1 <= day <= 31
      requires selectedYear.Some? && selectedMonth.Some? ==> day <= DaysInMonth(selectedYear.value, selectedMonth.value)
      modifies this`selectedDay, this`date, this`isOpen
      ensures Valid()
      ensures selectedDay == Some(day)
      ensures selectedYear.Some? && selectedMonth.Some? ==>
        date == Some(YMD(selectedYear.value, selectedMonth.value + 1, day)) && !isOpen
      ensures selectedYear.None? || selectedMonth.None? ==> date == old(date) && isOpen == old(isOpen)
      ensures date != old(date) ==> date.Some? && date.value.day <= DaysInMonth(date.value.year, date.value.month - 1)
    {
      selectedDay := Some(day);
      if selectedYear.Some? && selectedMonth.Some? {
        date := Some(YMD(selectedYear.value, selectedMonth.value + 1, day));
        isOpen := false;
      }
    }

    /** `handleBack` (components/hierarchical-date-picker.tsx:129-136): day -> month -> year, and year stays. */
    method HandleBack()
      modifies this`view, this`focusedItem
      ensures view == match old(view) { case YearView => YearView case MonthView => YearView case DayView => MonthView }
      ensures focusedItem == None
    {
      if view == MonthView {
        view := YearView;
      } else if view == DayView {
        view := MonthView;
      }
      focusedItem := None;
    }

    /**
     * `handleKeyDown` (components/hierarchical-date-picker.tsx:139-195) on the
     * item at `currentIndex` of the current view's list: arrows move the
     * focus within the list, Home and End jump to its ends, Enter and Space
     * select the item, Escape closes the picker.
     */
    method HandleKeyDown(key: Key, items: seq<int>, currentIndex: int)
      requires Valid() && items == Items() && 0 <= currentIndex < |items|
      modifies this
      ensures Valid()
      ensures key in {ArrowRight, ArrowLeft, ArrowDown, ArrowUp} ==>
        && view == old(view) && isOpen == old(isOpen) && date == old(date)
        && selectedYear == old(selectedYear) && selectedMonth == old(selectedMonth) && selectedDay == old(selectedDay)
        && var newIndex := MoveFocus(key, old(view), |items|, currentIndex);
           focusedItem == if newIndex != currentIndex then Some(newIndex) else old(focusedItem)
      ensures key == Home ==>
        && focusedItem == Some(0)
        && unchanged(this`view, this`isOpen, this`date, this`selectedYear, this`selectedMonth, this`selectedDay)
      ensures key == End ==>
        && focusedItem == Some(|items| - 1)
        && unchanged(this`view, this`isOpen, this`date, this`selectedYear, this`selectedMonth, this`selectedDay)
      ensures key == Escape ==>
        && !isOpen
        && unchanged(this`view, this`focusedItem, this`date, this`selectedYear, this`selectedMonth, this`selectedDay)
      ensures (key == Enter || key == Space) && old(view) == YearView ==>
        && selectedYear == Some(items[currentIndex]) && view == MonthView && focusedItem == None
        && unchanged(this`isOpen, this`date, this`selectedMonth, this`selectedDay)
      ensures (key == Enter || key == Space) && old(view) == MonthView ==>
        && selectedMonth == Some(items[currentIndex]) && view == DayView && focusedItem == None
        && unchanged(this`isOpen, this`date, this`selectedYear, this`selectedDay)
      ensures (key == Enter || key == Space) && old(view) == DayView ==>
        && selectedDay == Some(items[currentIndex]) && unchanged(this`view, this`focusedItem, this`selectedYear, this`selectedMonth)
        && selectedYear.Some? && selectedMonth.Some?
        && date == Some(YMD(selectedYear.value, selectedMonth.value + 1, items[currentIndex])) && !isOpen
      ensures key == Other ==> unchanged(this)
    {
      var newIndex := currentIndex;
      match key {
        case ArrowRight =>
          newIndex := if currentIndex + 1 < |items| - 1 then currentIndex + 1 else |items| - 1;
        case ArrowLeft =>
          newIndex := if currentIndex - 1 > 0 then currentIndex - 1 else 0;
        case ArrowDown =>
          var rowSize := if view == DayView then 7 else 3;
          newIndex := if currentIndex + rowSize < |items| - 1 then currentIndex + rowSize else |items| - 1;
        case ArrowUp =>
          var upRowSize := if view == DayView then 7 else 3;
          newIndex := if currentIndex - upRowSize > 0 then currentIndex - upRowSize else 0;
        case Enter =>
          SelectCurrent(items, currentIndex);
        case Space =>
          SelectCurrent(items, currentIndex);
        case Escape =>
          isOpen := false;
        case Home =>
          focusedItem := Some(0);
        case End =>
          focusedItem := Some(|items| - 1);
        case Other =>
      }
      if newIndex != currentIndex {
        focusedItem := Some(newIndex);
      }
    }

    /** The Enter/Space branch: the handler of the current view on the focused item. */
    method SelectCurrent(items: seq<int>, currentIndex: int)
      requires Valid() && items == Items() && 0 <= currentIndex < |items|
      modifies this`selectedYear, this`selectedMonth, this`selectedDay, this`view, this`focusedItem, this`date, this`isOpen
      ensures Valid()
      ensures isOpen == (old(view) != DayView && old(isOpen))
      ensures old(view) == YearView ==>
        && selectedYear == Some(items[currentIndex]) && view == MonthView && focusedItem == None
        && unchanged(this`date, this`selectedMonth, this`selectedDay)
      ensures old(view) == MonthView ==>
        && selectedMonth == Some(items[currentIndex]) && view == DayView && focusedItem == None
        && unchanged(this`date, this`selectedYear, this`selectedDay)
      ensures old(view) == DayView ==>
        && selectedDay == Some(items[currentIndex]) && unchanged(this`view, this`focusedItem, this`selectedYear, this`selectedMonth)
        && selectedYear.Some? && selectedMonth.Some?
        && date == Some(YMD(selectedYear.value, selectedMonth.value + 1, items[currentIndex]))
    {
      if view == YearView {
        HandleYearSelect(items[currentIndex]);
      } else if view == MonthView {
        MonthsContents();
        assert items[currentIndex] in Months();
        HandleMonthSelect(items[currentIndex]);
      } else {
        DaysArrayContents(selectedYear, selectedMonth);
        assert items[currentIndex] in DaysArray(selectedYear, selectedMonth);
        HandleDaySelect(items[currentIndex]);
      }
    }
  }
}
