# Vaddi calculator: a Dafny model of its interest engine, history store and form logic

Vaddi calculator is a simple-interest calculator for Indian lending practice.
A principal accrues interest between two calendar dates. The rate is read in one of two conventions:
a percentage per year, or rupees per hundred per month.
Every calculation is saved in a history of at most 50 entries, newest first.

This project models the logic behind that, in four parts:

- `interest.dfy` (`Interest`): the 30-day-borrow duration between two dates.
  - Shared by `calculateInterest` and `getDurationText`.
  - Interest in both conventions, and the monthly rate (kept in the result, not displayed).
  - The duration phrase.
  - The duration and the interest are proved against an independent reference: the 30/360 day number `Serial(d) = 360·year + 30·month + day`.
    The borrow keeps it unchanged, so every elapsed duration is exactly that day count.
- `number_format.dfy` (`NumberFormat`): Indian (lakh) digit grouping.
  - The regular expression `\B(?=(\d{2})+(?!\d))` is stated as a rule over characters.
  - On numerals it is proved to produce the reference right-to-left grouping: three digits last, then pairs.
  - Deleting the commas gives the numeral back.
- `storage.dfy` (`Storage`): the persisted history.
  - A class whose one field is the storage slot: absent, corrupt, or a list of records.
  - Its four operations are methods.
  - Specification functions `Prepend` and `Without` describe each write.
  - Lemmas state the cap, the ordering, and the effect of a run of saves.
- `calculator.dfy` (`Calculator`) and `date_picker.dfy` (`DatePicker`): the two components as classes over their state.
  - The calculator: keystroke filters, the ordered validation of a calculation, the record it saves, reset, and the duration line.
  - The date picker: the year → month → day state machine, with keyboard focus movement and the reset when it opens.

Shared pieces:
- `text.dfy` (`Text`): character filtering, decimal numerals and `join`.
- `wrappers.dfy` (`Wrappers`): `Option` and `Result`.
- `types.dfy` (`Types`): the saved `Calculation` record.

Two behaviours of the code that the model keeps as written:

- An end date before the start date is clamped only by `getDurationText`, which then returns "0 days" (lib/utils.ts:101-104).
  `calculateInterest` borrows regardless and can yield a negative duration and negative interest; see `Interest.NegativeInterestWithoutClamp`.
- `calculateInterest` returns a monthly rate, and `handleCalculate` keeps it in the result.
  The panel that would display it is commented out (components/calculator.tsx:279-286), so the value is never shown.
  The rupee-mode formula is kept as written; `Interest.MonthlyRateMeaning` states what the value is.

## Model

| member | source | states |
|---|---|---|
| Text.Filter | lib/utils.ts:12 | `replace(/[^…]/g, "")`: the result keeps exactly the characters of the input in the class, is no longer, and is the input itself when every character is in the class |
| Text.FilterConcat | lib/utils.ts:12 | filtering distributes over concatenation, so the kept characters stay in order |
| Text.NatToString | lib/utils.ts:133 | `${n}` is a canonical numeral (no leading zero) whose decimal value is n |
| Text.NatToStringOfValue | lib/utils.ts:133 | rendering the value of a canonical numeral gives that numeral back |
| NumberFormat.GroupDigits | lib/utils.ts:23-30 | reference grouping: the groups concatenate to the numeral; up to three digits form one group; otherwise the last group has 3 digits, the middle ones 2 and the first 1 or 2 |
| NumberFormat.InsertCommas | lib/utils.ts:30 | no contract of its own: the regex replacement on the digits before the last three; NumberFormat.FormatIndianNumberGroups states that it yields the pair groups |
| NumberFormat.FormatIndianNumber | lib/utils.ts:18-32 | no contract of its own; its properties are stated by NumberFormat.FormatIndianNumberGroups, NumberFormat.FormatIndianNumberRoundTrip, NumberFormat.FormatIndianNumberShort and NumberFormat.FormatIndianNumberSixDigits |
| NumberFormat.FormatIndianNumberGroups | lib/utils.ts:18-32 | on a non-empty digit string, formatIndianNumber (regex and all) equals the reference groups joined with "," |
| NumberFormat.FormatIndianNumberRoundTrip | lib/utils.ts:18-32 | deleting the commas from formatIndianNumber's output gives back the input digits |
| NumberFormat.FormatIndianNumberShort | lib/utils.ts:21-27 | the empty string gives "0"; up to three characters are returned unchanged |
| NumberFormat.FormatIndianNumberSixDigits | lib/utils.ts:23-31 | a six-digit numeral reads d,dd,ddd |
| NumberFormat.FormatIndianNumberLakh | lib/utils.ts:14-15 | 100000 is written "1,00,000" |
| NumberFormat.FormatCurrency | lib/utils.ts:8-16 | the result is empty exactly when the input is; input without digits gives "0"; otherwise it is the input's digits in the reference grouping (GroupDigits joined with ","), so deleting the commas gives exactly those digits |
| NumberFormat.SplitDot | lib/utils.ts:38 | `split(".")`: the integer part is the text before the first ".", the whole input when there is none; the fractional part is absent exactly when there is no ".", and otherwise is the dot-free text after it, up to the next "." or the end |
| NumberFormat.SplitDotFixed | lib/utils.ts:38 | "i.f" with dot-free i and f splits into i and f |
| NumberFormat.FormatIndianCurrency | lib/utils.ts:34-41 | no contract of its own; its properties are stated by NumberFormat.FormatIndianCurrencyFixed |
| NumberFormat.FormatIndianCurrencyFixed | lib/utils.ts:34-41 | on "i.f" only i is grouped and ".f" follows unchanged; deleting the commas gives "i.f" back |
| Interest.Elapsed | lib/utils.ts:59-73 | the borrowed duration has 0 ≤ days ≤ 30 and 0 ≤ months ≤ 11, and 360·years + 30·months + days is the 30/360 day count between the dates |
| Interest.TotalMonthsIsDayCount | lib/utils.ts:75-76 | totalMonths is the 30/360 day count divided by 30 |
| Interest.InterestOf | lib/utils.ts:76-91 | no contract of its own; its properties are stated by Interest.CalculateInterest, Interest.InterestIsDayCount, Interest.InterestSign, Interest.ZeroInterest and Interest.ModeEquivalence |
| Interest.MonthlyRate | lib/utils.ts:79-82 | no contract of its own; its properties are stated by Interest.CalculateInterest and Interest.MonthlyRateMeaning |
| Interest.CalculateInterest | lib/utils.ts:43-94 | interest is principal·rate·dayCount/36000 in percent mode and /3000 in rupee mode (dayCount the 30/360 count); monthlyRate is rate/12, or (rate·12/principal)·100 |
| Interest.InterestIsDayCount | lib/utils.ts:83-91 | both interest formulas are proportional to the 30/360 day count |
| Interest.Before | lib/utils.ts:102 | no contract of its own; Interest.BeforeSerial states that it agrees with the day numbers |
| Interest.BeforeSerial | lib/utils.ts:102 | comparing dates field by field agrees with their day numbers |
| Interest.ElapsedYears | lib/utils.ts:59-73 | when the end does not precede the start the years are not negative (months and days never are, by Interest.Elapsed) |
| Interest.SameDateZero | lib/utils.ts:59-73 | identical start and end give 0 years, 0 months, 0 days |
| Interest.ZeroInterest | lib/utils.ts:76-91 | dates with the same day number (identical dates among them) give totalMonths 0 and interest 0 in both modes |
| Interest.SameSerialNonZeroDuration | lib/utils.ts:59-73 | from Jan 1 back to the previous Dec 31 the borrow gives -1 year 11 months 30 days, which sums to zero |
| Interest.JanuaryThirtyFirstToFebruaryFirst | lib/utils.ts:59-91 | Jan 31 to Feb 1 is a zero duration and accrues no interest |
| Interest.ModeEquivalence | lib/utils.ts:85-91 | percent-mode interest at rate r equals rupee-mode interest at rate r/12 |
| Interest.MonthlyRateMeaning | lib/utils.ts:79-91 | percent mode: monthlyRate·12 is the rate and interest is principal·monthlyRate/100 per month; rupee mode: interest is principal·rate/100 per month, while principal·monthlyRate is 1200·rate |
| Interest.InterestSign | lib/utils.ts:43-94 | with positive principal and rate, interest is ≥ 0 when the end does not precede the start and ≤ 0 when it does |
| Interest.NegativeInterestWithoutClamp | lib/utils.ts:50-91 | an end before the start gives negative interest: no clamp |
| Interest.PartialMonthExample | lib/utils.ts:59-76 | 2024-01-15 to 2024-02-10 is 0 y 0 m 25 d, totalMonths 25/30 |
| Interest.PercentModeExample | lib/utils.ts:85-87 | 2024-01-01 to 2025-01-01 is 12 months; 100000 at 18% a year gives 18000 |
| Interest.RupeeModeExample | lib/utils.ts:88-91 | 100000 at 1.5 per hundred per month over one month gives 1500 |
| Interest.ShownRules | lib/utils.ts:130-142 | the phrase is never empty, lists years, months, days in that order, shows a unit exactly when it is positive, and shows days when nothing else is shown |
| Interest.Phrases | lib/utils.ts:130-142 | the phrases are a years phrase when years > 0, then a months phrase when months > 0, then a days phrase when days > 0 or nothing else was shown; each is the amount and the unit's key, singular exactly when the amount is 1 |
| Interest.DurationTextClamp | lib/utils.ts:101-104 | an end before the start gives the same text as equal dates: "0 " + t("days") |
| Interest.DurationText | lib/utils.ts:96-145 | no contract of its own; its properties are stated by Interest.DurationTextClamp, Interest.ShownRules, Interest.Phrases and Interest.GetDurationText |
| Interest.GetDurationText | lib/utils.ts:96-145 | "0 days" when the end precedes the start, otherwise the joined phrases of the same duration calculateInterest uses |
| Storage.Prepend | lib/storage.ts:7-15 | after a save the list holds min(n+1, 50) entries, the new record first, the rest a prefix of the old list |
| Storage.Without | lib/storage.ts:34 | no survivor has the id, survivors are exactly the old records without that id, and a list without the id is unchanged |
| Storage.WithoutConcat | lib/storage.ts:34 | deleting keeps the survivors in their original order |
| Storage.DuplicateIds | lib/storage.ts:6-18 | two saves with one id are both kept, and deleting that id removes both |
| Storage.SaveAllKeepsNewest | lib/storage.ts:9-15 | after any run of saves the list is the new records, newest first, then the old list, cut to 50: the oldest are dropped |
| Storage.CapKeepsFiftyNewest | lib/storage.ts:12-15 | after 50 or more saves the list is exactly the 50 most recent, newest first |
| Storage.HistoryStore.GetCalculations | lib/storage.ts:20-30 | the stored list as it is, or [] when the slot is absent or does not parse |
| Storage.HistoryStore.SaveCalculation | lib/storage.ts:6-18 | the slot becomes Prepend of the old list and stays within 50; a corrupt or absent slot becomes exactly [record] |
| Storage.HistoryStore.DeleteCalculation | lib/storage.ts:32-36 | the slot becomes Without of the old list; an absent or corrupt slot becomes []; the cap is preserved |
| Storage.HistoryStore.ClearCalculations | lib/storage.ts:38-40 | the slot is removed whatever it held, so the list reads [] |
| Calculator.PrincipalInput | components/calculator.tsx:62-67 | the digits typed are taken when empty or at most 999999999, otherwise the old value stays; a well-formed field stays well-formed |
| Calculator.PrincipalLengthRule | components/calculator.tsx:64 | up to nine digits are always accepted; ten or more without a leading zero are always refused |
| Calculator.PrincipalDisplayRoundTrip | components/calculator.tsx:180-181 | feeding the grouped display of a principal back to the change handler leaves the principal unchanged |
| Calculator.RateInput | components/calculator.tsx:69-72 | the field becomes exactly the digits and dots typed, always accepted |
| Calculator.ParseDigits | components/calculator.tsx:93 | parseFloat of a non-empty digit string is its value |
| Calculator.ParseDecimal | components/calculator.tsx:93-94 | no contract of its own; its properties are stated by Calculator.ParseDigits and Calculator.ParseDecimalExamples |
| Calculator.ParseDecimalExamples | components/calculator.tsx:93-94 | "1.5" parses to 1.5, "2.5.1" to 2.5, "." to NaN |
| Calculator.Validate | components/calculator.tsx:75-108 | in order: a missing field gives fillAllFields, else an end before the start gives endDateError, else a NaN or non-positive number gives invalidNumbers; each holds exactly under its condition, and success yields the parsed positive values |
| Calculator.BuildRecord | components/calculator.tsx:133-144 | the record carries the inputs and the engine's interest unchanged, total = principal + interest, and total ≥ principal for validated inputs |
| Calculator.CalculatorForm.constructor | components/calculator.tsx:41-60 | empty principal, rate "1.5", rupee mode, both dates today, no result, the duration of today to today |
| Calculator.CalculatorForm.UpdateDuration | components/calculator.tsx:56-60 | with both dates set the duration line becomes their duration text, otherwise it is left as it was |
| Calculator.CalculatorForm.SetStartDate | components/calculator.tsx:218 | the start date changes and the duration effect follows |
| Calculator.CalculatorForm.SetEndDate | components/calculator.tsx:227 | the end date changes and the duration effect follows |
| Calculator.CalculatorForm.SetPercentMode | components/calculator.tsx:198 | the switch sets the mode and nothing else |
| Calculator.CalculatorForm.HandlePrincipalChange | components/calculator.tsx:62-67 | the field becomes PrincipalInput of its old value and stays well-formed |
| Calculator.CalculatorForm.HandleInterestRateChange | components/calculator.tsx:69-72 | the field becomes RateInput of what was typed |
| Calculator.CalculatorForm.HandleCalculate | components/calculator.tsx:74-152 | on a validation failure nothing is shown or saved; otherwise the result is the engine's figures and exactly one record, BuildRecord of the inputs, is prepended to the history |
| Calculator.CalculatorForm.HandleReset | components/calculator.tsx:154-161 | principal and rate become "" (not "1.5"), rupee mode, both dates today, no result |
| DatePicker.Years | components/hierarchical-date-picker.tsx:79-82 | no contract of its own; DatePicker.YearsContents states its contents |
| DatePicker.YearsContents | components/hierarchical-date-picker.tsx:79-82 | the years are maxYear down to minYear, each once, strictly decreasing, none when minYear > maxYear |
| DatePicker.Months | components/hierarchical-date-picker.tsx:85 | no contract of its own; DatePicker.MonthsContents states its contents |
| DatePicker.MonthsContents | components/hierarchical-date-picker.tsx:85 | the months are 0 to 11 |
| DatePicker.DaysInMonth | components/hierarchical-date-picker.tsx:91 | a month has 28 to 31 days |
| DatePicker.DaysArray | components/hierarchical-date-picker.tsx:88-93 | no contract of its own; DatePicker.DaysArrayContents states its contents |
| DatePicker.DaysArrayContents | components/hierarchical-date-picker.tsx:88-93 | the days are 1 to the month's length when year and month are selected, none otherwise |
| DatePicker.MoveFocus | components/hierarchical-date-picker.tsx:146-166 | no contract of its own; DatePicker.MoveFocusInRange states its range, direction and step |
| DatePicker.MoveFocusInRange | components/hierarchical-date-picker.tsx:146-166 | from an index in [0, n) every key stays in [0, n); Right/Left move by exactly 1 away from the ends; Down/Up move by exactly a row (7 in the day view, 3 otherwise) when it fits and otherwise land on the last / first item; each moves in its direction |
| DatePicker.Picker.constructor | components/hierarchical-date-picker.tsx:35-46 | closed, year view, no focus, selections read from the bound date or null |
| DatePicker.Picker.ResetSelection | components/hierarchical-date-picker.tsx:50-64 | year view, selections read from the bound date or cleared |
| DatePicker.Picker.HandleOpenChange | components/hierarchical-date-picker.tsx:397 | opening a closed picker runs the reset; anything else leaves view and selections alone |
| DatePicker.Picker.ReceiveDate | components/hierarchical-date-picker.tsx:50-64 | a new bound date while open runs the reset; otherwise view and selections stay |
| DatePicker.Picker.HandleYearSelect | components/hierarchical-date-picker.tsx:102-106 | the year is selected, the view moves to months, focus is cleared |
| DatePicker.Picker.HandleMonthSelect | components/hierarchical-date-picker.tsx:109-113 | the month is selected, the view moves to days, focus is cleared |
| DatePicker.Picker.HandleDaySelect | components/hierarchical-date-picker.tsx:116-126 | the day is recorded; the date is emitted and the picker closed only with year and month selected, and an emitted date is a real calendar day |
| DatePicker.Picker.HandleBack | components/hierarchical-date-picker.tsx:129-136 | day → month, month → year, year stays; focus is cleared |
| DatePicker.Picker.HandleKeyDown | components/hierarchical-date-picker.tsx:139-195 | arrows focus MoveFocus's index when it differs from the current one; Home and End focus the ends; Escape closes; Enter and Space select the item with the current view's handler; each key leaves every field it does not write unchanged, and other keys change nothing |
| DatePicker.Picker.SelectCurrent | components/hierarchical-date-picker.tsx:167-177 | the current view's handler is applied to the focused item; the picker closes only from the day view; the year view keeps the month, day and date, the month view the year, day and date, the day view the year, month, view and focus |

## Left out

- Dates are (year, month 1-12, day 1-31) triples compared field by field. The source compares JavaScript instants, so the time of day from `new Date()` also counts. Time zones, `Date` rollover of out-of-range fields and the two-digit-year mapping of `new Date(y, m)` are not modelled.
- The records keep their dates as calendar dates rather than ISO-8601 strings. `id`, `timestamp` and `label` come from the clock, so they are parameters. `label` is named `labelText` because `label` is a Dafny keyword.
- Numbers are exact reals: floating-point rounding and the `toFixed` display are not modelled.
- `formatIndianNumber` is modelled on its string argument. Its number path (`Math.floor(value).toString()`) is not modelled.
- NumberFormat.FormatIndianCurrency: takes the `value.toFixed(decimals)` string as its input rather than the number, because `toFixed` is floating point.
- Calculator.ParseDecimal: models `Number.parseFloat` only on strings of digits and dots, the only strings the form's fields can hold. Signs, exponents, whitespace and "Infinity" are not modelled.
- Interest.MonthlyRate: requires a non-zero principal in rupee mode, where JavaScript would give Infinity or NaN. handleCalculate only calls it with a positive principal.
- `localStorage`, `JSON.parse` and `JSON.stringify` are foreign I/O. The slot is `Absent | Corrupt | Present(records)`.
  - Stored JSON that parses to something other than a list of records is not modelled.
  - A failing `setItem` (quota) and `console.error` are not modelled.
- Date picker: `getDaysInMonth` is the Gregorian rule.
  - `isValid(newDate)` always holds for a day from the day list, so it is not a separate branch.
  - `getFirstDayOfMonth` is not modelled: it is the calendar's blank leading cells, which are rendering.
- Keyboard handling: `preventDefault`, DOM focus, the focus effect and the popover's tab trap are rendering.
- React state updates are modelled as immediate assignments. Each effect is modelled as the method that runs it after the change it depends on.
- The picker's bound `date` is a field of the picker. The model does not connect the calculator's two pickers to its `startDate` and `endDate`; `SetStartDate` and `SetEndDate` stand for their `setDate` props.
- The translation function `t` is an uninterpreted `string -> string` parameter. The language provider is not part of this model.
- The following are not part of this model: rendering, toasts, the result panel's formatting and the delayed scroll; components/history.tsx and components/header.tsx; app/layout.tsx, app/page.tsx and app/manifest.ts; `cn`.
