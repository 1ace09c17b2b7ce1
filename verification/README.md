# ChronoPick date picker — Dafny model

This project models the core of ChronoPick, a date/time picker popup bound to a
text input. It covers two parts. The first is the date helpers of
`src/dateUtils.js`: month length, same-day comparison and clamping. The second is
the logic under the DOM code of `src/chronopick-datetime-picker.js`:

- the `dd/mm/yyyy[ HH:MM]` parser and formatter;
- the widget state: selection, viewed month and year, the year-panel flag, popup
  visibility, the input's text and the `onChange` notifications;
- the handlers that change that state;
- the integer layout of the day grid and the twelve-year window.

All of it is written as pure functions over immutable values, with lemmas about them.

Modules, one per concept:

- `Wrappers` (`wrappers.dfy`): `Option` stands for `null`/`undefined`, and `Result` for the constructor's throw.
- `Dates` (`dates.dfy`): `CalendarDate(year, month 0..11, day, hour, minute)` replaces a JavaScript `Date`. Its strict lexicographic order `Before` replaces timestamp comparison. `JsYear` is the `Date` constructor's rule that reads years 0..99 as 1900..1999.
- `DateUtils` (`date_utils.dfy`): `DaysInMonth`, `ClampDate` and `IsSameDay`, plus the `ValidDate` predicate. `DaysInMonth` is defined from the cumulative month-start table that ECMA-262 uses (MonthFromTime, DateFromTime). Lemmas then prove the familiar rule: the Gregorian leap-year rule, and 30 days in April, June, September and November.
- `JsStrings` (`js_strings.dfy`): the JavaScript primitives the codec uses. These are `split` on one character, `Number(text)`, `String(n)` and `padStart(2, '0')`, with the laws that connect them.
- `DateCodec` (`date_codec.dfy`): `ParseInputDate` and `FormatDate`, and the round trip between them.
- `CalendarGrid` (`calendar_grid.dfy`): the row layout loop of `renderCalendar` and the year window of `renderYearPanel`.
- `Picker` (`picker.dfy`): `PickerState`, the constructor `Create`, and one transition per handler. `Valid` is the invariant they keep.
- `Controller` (`controller.dfy`): host events mapped to transitions, `Run` over a sequence of events, and invariant preservation.

Two values come from outside as parameters: "now" (`new Date()`) and the weekday of the first day of the month (`getDay()`).

Where the code behaves differently from what a reader may expect, the model follows the code:

- A year-cell click hides the year panel but leaves `yearPanelVisible` set. The next click on the month label therefore only clears the flag, and a second click is needed to show the panel (`Picker.YearPickLeavesFlagSet`).
- Focus only shows the popup. It does not recompute the viewed month from the selection.
- `toggleYearPanel` itself does not check that the popup is shown, so a direct call toggles the panel while the popup is hidden (`Picker.ToggleYearPanel` has no visibility condition). A user's click on the month label needs the popup shown, like every click inside the popup (`Controller.Step`).
- The time-field handler does not clamp. It seeds an empty selection with "now", unclamped, so a selection can leave `[minDate, maxDate]` (`Picker.SyncTimeIgnoresBounds`). The construction-time parse is not clamped either.
- Parsing always reads `day/month/year`, whatever the format string says. Formatting reads the format string only for an `H`.
- The year is written with `String(year)` and is not padded to four digits.
- The previous/next buttons still work while the year panel is shown. They leave the rendered buttons as they were, so the panel then need not contain the viewed year. The year window contains the viewed year only when it is rendered (`Picker.ToggleYearPanel`).

## Model

| member | source | states |
|---|---|---|
| `Dates.BeforeTrichotomy` | src/dateUtils.js:2-3 | the date order used by clamping is total and asymmetric: two dates are equal or exactly one is before the other |
| `DateUtils.DaysInMonth` | src/dateUtils.js:7-9 | `new Date(year, month + 1, 0).getDate()`, with the 19xx year reading and the month carry of the constructor, is always between 28 and 31 |
| `DateUtils.FebruaryLeapRule` | src/dateUtils.js:7-9 | outside years 0..99, February has 29 days exactly when the year is divisible by 4 and not by 100 unless by 400, and 28 otherwise |
| `DateUtils.MonthLengthRule` | src/dateUtils.js:7-9 | April, June, September and November (months 3, 5, 8, 10) have 30 days; the other non-February months have 31 |
| `DateUtils.MonthCarriesIntoYear` | src/dateUtils.js:7-9 | a month index 12 higher is the same month of the next year |
| `DateUtils.TwoDigitYears` | src/dateUtils.js:7-9 | years 0..99 are measured as 1900..1999, so year 0 gets a 28-day February |
| `DateUtils.DaysInMonthExamples` | tests/dateUtils.test.js:4-9 | February has 29 days in 2024 and 2000, and 28 in 2023 and 1900 |
| `DateUtils.ClampDate` | src/dateUtils.js:1-5 | the result is the date, min or max; `min` when present and the date is before it; `max` when present, the date is after it and the min branch did not fire; the date itself when it is within the present bounds |
| `DateUtils.ClampWithinBounds` | src/dateUtils.js:1-5 | with absent or ordered bounds, the clamped date lies within them and clamping again changes nothing |
| `DateUtils.ClampFixesExactlyInBounds` | src/dateUtils.js:1-5 | with ordered bounds, clamping leaves a date unchanged if and only if it lies within the bounds |
| `DateUtils.ClampInvertedBounds` | src/dateUtils.js:2-3 | for every pair of inverted bounds (`min` after `max`), a date before `min` becomes `min` (the min test runs first), and clamping that again gives `max` |
| `DateUtils.IsSameDay` | src/dateUtils.js:11-19 | true exactly when both dates are present and their midnight values coincide |
| `DateUtils.IsSameDayEquivalence` | src/dateUtils.js:11-19 | reflexive, symmetric and transitive on present dates; false when either argument is absent |
| `DateUtils.IsSameDayIgnoresTime` | tests/dateUtils.test.js:19-28 | changing hour and minute keeps the same day; moving the day does not |
| `JsStrings.Split` | src/chronopick-datetime-picker.js:39-40 | there is at least one piece, no piece contains the separator, and joining the pieces with the separator gives back the text |
| `JsStrings.SplitJoin` | src/chronopick-datetime-picker.js:39-40 | splitting a join of separator-free pieces gives back exactly those pieces |
| `JsStrings.NumberOf` | src/chronopick-datetime-picker.js:40 | the empty text reads as 0, a digit string as a non-negative number, and text starting with anything but a digit or sign as NaN |
| `JsStrings.NumberOfPad` | src/chronopick-datetime-picker.js:54 | `Number` of a zero-padded integer gives back the integer |
| `JsStrings.PadTwoDigits` | src/chronopick-datetime-picker.js:54 | padding a number 0..99 gives exactly two digits |
| `JsStrings.NumberOfIntToString` | src/chronopick-datetime-picker.js:55 | `Number(String(n))` gives back `n`, negatives included |
| `DateCodec.ParseDateSegment` | src/chronopick-datetime-picker.js:40-43 | a parsed date segment has a non-zero day, a month other than -1 (the text's month was not 0), a year outside 0..99, and is at midnight |
| `DateCodec.ParseInputDate` | src/chronopick-datetime-picker.js:36-51 | empty text gives null; a parsed date never has a zero day or text month, nor a year in 0..99 |
| `DateCodec.ParseRejectsNonNumericStart` | src/chronopick-datetime-picker.js:40-41 | text not starting with a digit or sign gives null, as its day field is empty or not a number |
| `DateCodec.ParseRejectsFalsyField` | src/chronopick-datetime-picker.js:40-41 | `d/m/y` text whose day, month or year field is 0, empty or not a number gives null |
| `DateCodec.ParseAcceptsTruthyFields` | src/chronopick-datetime-picker.js:40-43 | `d/m/y` text whose three fields are non-zero numbers parses to that day at midnight, with the month stored as `m - 1` and the year read as the constructor reads it, padded or not |
| `DateCodec.TwoDigitYearText` | src/chronopick-datetime-picker.js:43 | the typed text "10/02/24" parses to 10 February 1924 |
| `DateCodec.ParseRejectsMissingYear` | src/chronopick-datetime-picker.js:40-41 | `d/m` text with no year field gives null |
| `DateCodec.ParseWithoutTimeIsMidnight` | src/chronopick-datetime-picker.js:43-45 | text with no space has no time segment, so a parsed date is at 00:00 |
| `DateCodec.ParseTimeSegment` | src/chronopick-datetime-picker.js:45-48 | a time segment changes only hour and minute, each `Number(piece) \|\| 0`; whether the text parses depends on the date segment alone; without a `:` the minute is 0 |
| `DateCodec.FormatDate` | src/chronopick-datetime-picker.js:53-62 | the output contains a space, the separator of a time part, exactly when the format string contains `H` |
| `DateCodec.FormatStartsWithDatePart` | src/chronopick-datetime-picker.js:55-58 | whatever the format, the formatted text begins with the `dd/mm/yyyy` part; the time can only follow it |
| `DateCodec.FormatLayout` | src/chronopick-datetime-picker.js:54-55 | for a day and a 1-based month in 0..99 the text starts with two digits, `/`, two digits, `/`, then the unpadded year |
| `DateCodec.FormatReadsOnlyH` | src/chronopick-datetime-picker.js:57-59 | two format strings that agree on containing `H` give the same output |
| `DateCodec.DateSegmentRoundTrip` | src/chronopick-datetime-picker.js:40-43 | the padded `dd/mm/year` text of a date parses back to that day at midnight, with the constructor's year reading |
| `DateCodec.TimeSegmentRoundTrip` | src/chronopick-datetime-picker.js:46-47 | the padded `HH:MM` text gives back hour and minute |
| `DateCodec.FormatSegments` | src/chronopick-datetime-picker.js:53-62 | splitting formatted text on spaces gives the date part, followed by the time part exactly in `H` mode |
| `DateCodec.ParseFormatRoundTrip` | src/chronopick-datetime-picker.js:36-62 | parsing the formatted text of a date with non-zero day and text month and a year outside 0..99 gives the date back; without `H`, the same day at midnight |
| `DateCodec.TwoDigitYearComesBackShifted` | src/chronopick-datetime-picker.js:43 | a formatted year 1..99 parses back as 1900 plus that year |
| `CalendarGrid.DayCell` | src/chronopick-datetime-picker.js:166-174 | a day cell carries its day number and is marked selected exactly when the selection is that year, month and day |
| `CalendarGrid.LayOutMonth` | src/chronopick-datetime-picker.js:161-186 | for any month length, read row by row the rows are the leading blanks then one cell per day; every closed row holds 7 cells and the always-appended last row holds the remainder |
| `CalendarGrid.RenderCalendar` | src/chronopick-datetime-picker.js:158-186 | read row by row, the rows are `firstDay` blanks then one cell per day of the month; there are `(firstDay + days) / 7 + 1` rows, all but the last have 7 cells, and the last, always appended, has `(firstDay + days) % 7`, possibly none |
| `CalendarGrid.YearsFrom` | src/chronopick-datetime-picker.js:191-193 | the loop yields `count` consecutive years from `start`, so a year is present exactly when it lies in `[start, start + count)` |
| `CalendarGrid.YearPanel` | src/chronopick-datetime-picker.js:189-205 | the year panel holds 12 years; a year is present exactly when it lies in `[currentYear - 6, currentYear + 5]`, and the viewed year is the seventh |
| `CalendarGrid.YearPanelExample` | src/chronopick-datetime-picker.js:191-193 | the panel around 2024 is 2018..2029 |
| `Picker.ResolveOptions` | src/chronopick-datetime-picker.js:14-21 | an empty format becomes `dd/mm/yyyy`, which has no time part; `showTodayButton` defaults to true; bounds pass through |
| `Picker.Create` | src/chronopick-datetime-picker.js:4-30 | an unresolved element fails; otherwise the selection is the parse of the input text, the view starts at the selection's month and year (or at now's), the popup and the year panel are hidden, and nothing is notified |
| `Picker.UpdateValue` | src/chronopick-datetime-picker.js:227-232 | without a selection nothing changes; with one, the input text becomes its formatted text and `onChange` receives that same text once; nothing else changes |
| `Picker.SelectDate` | src/chronopick-datetime-picker.js:219-225 | the stored date is `ClampDate` of the requested date, so it is the date, min or max by the clamp's branches, and the date itself when within bounds; the view moves to its month and year; the input holds its formatted text and `onChange` receives it once; the popup is hidden only when `close` is set; the year panel is untouched |
| `Picker.SyncTime` | src/chronopick-datetime-picker.js:124-129 | the selection, or now when none, gets the fields' hour and minute and keeps its day; the text is committed and notified once; the view and everything else are unchanged |
| `Picker.Prev` | src/chronopick-datetime-picker.js:253-260 | the view moves exactly one month back (from any month from 0 up), an in-range month stays in 0..11, and January goes to December of the year before; nothing else changes |
| `Picker.Next` | src/chronopick-datetime-picker.js:262-269 | the view moves exactly one month on (from any month up to 11), an in-range month stays in 0..11, and December goes to January of the year after; nothing else changes |
| `Picker.PrevNextInverse` | src/chronopick-datetime-picker.js:253-269 | next after prev, and prev after next, restore the state |
| `Picker.NavigationExamples` | src/chronopick-datetime-picker.js:253-269 | back from January 2024 is December 2023; on from December 2024 is January 2025 |
| `Picker.ToggleYearPanel` | src/chronopick-datetime-picker.js:207-217 | the flag flips and the panel is shown exactly when the flag is now set, rendered around the viewed year, which it then contains; nothing else changes |
| `Picker.PickYear` | src/chronopick-datetime-picker.js:197-202 | the viewed year becomes the picked year and the day grid is shown; the month, the selection and the flag are unchanged |
| `Picker.Hide` | src/chronopick-datetime-picker.js:272-275 | the popup is hidden and nothing else changes, the year-panel flag included |
| `Picker.Focus` | src/chronopick-datetime-picker.js:242-245 | the popup is shown and nothing else changes, the viewed month included |
| `Picker.YearPickLeavesFlagSet` | src/chronopick-datetime-picker.js:197-217 | after opening the panel and picking a year, one click on the month label leaves the day grid showing, and only a second click shows the panel |
| `Picker.CreateValid` | src/chronopick-datetime-picker.js:23-30 | a picker built from text that parses to a valid date, or not at all, satisfies the invariant |
| `Picker.SelectDateWithinBounds` | src/chronopick-datetime-picker.js:219-220 | with ordered bounds, the selection lies within them after a pick |
| `Picker.SyncTimeIgnoresBounds` | src/chronopick-datetime-picker.js:124-128 | moving the hour of a selection that equals the maximum past the maximum's hour leaves it after the maximum |
| `Picker.CommittedTextParsesBack` | src/chronopick-datetime-picker.js:219-230 | after a pick, the input text parses back to the selection, at midnight when the format has no `H` |
| `Controller.CellDate` | src/chronopick-datetime-picker.js:164-176 | the date a rendered day cell carries is a real calendar date, and once picked it is the date the grid marks as selected on that cell |
| `Controller.Step` | src/chronopick-datetime-picker.js:234-270 | an event on an element that is not displayed changes nothing, and in particular no element inside a hidden popup reacts; a click outside hides and focus shows; navigation, the year panel and focus leave selection, input and notifications alone; at most one notification is appended |
| `Controller.StepPreservesValid` | src/chronopick-datetime-picker.js:219-269 | every handler keeps the month in 0..11, the selection a valid date, the year panel shown only with its flag set, and the input equal to the last notification |
| `Controller.RunPreservesValid` | src/chronopick-datetime-picker.js:219-269 | every sequence of events keeps that invariant |
| `Controller.ViewEventsKeepSelection` | src/chronopick-datetime-picker.js:253-269 | any sequence of navigation, year-panel and focus events leaves the selection, the input text and the notifications unchanged |
| `Controller.Walkthrough` | src/chronopick-datetime-picker.js:23-27 | "10/02/2024" selects 10 February 2024; focus shows February 2024; next shows March; picking 15 March with close writes "15/03/2024", hides the popup and notifies once with that text |

## Left out

- DOM construction and styling are not modelled. This covers `createPicker`, the element building in `createTimeInputs` and `createTimeInput`, the `innerHTML` writes and the ARIA attributes. Displays become the booleans `visible` and `yearGridShown`.
- Positioning from `getBoundingClientRect` and the window scroll offsets is not modelled, because it is layout.
- The document click listener's target test is not modelled, because it is host event wiring. The listener appears only as the `OutsideClick` event.
- `hide()` calls `input.focus()`, which can fire the focus handler again. That is host event wiring, so `Hide` only hides the popup.
- The month label text from `Intl.DateTimeFormat` and `navigator.language` is left out, because these are locale services outside the code.
- `new Date()` is a clock, so it becomes the parameter `now`. `getDay()` of the first day of the month becomes the parameter `firstDay`.
- `Date` normalisation of out-of-range fields is not modelled. Examples are `31/02` rolling into March, a month of 13, and `setHours(25)`. The model keeps the raw fields. It covers such values through `ValidDate` and `TimeFieldInRange`, which are the preconditions of the invariant lemmas and of `SyncTime`.
- Seconds, milliseconds and daylight saving time are not modelled. The order compares year, month, day, hour and minute, so dates that differ only in seconds count as equal.
- `JsStrings.NumberOf` covers only the empty text and optionally signed decimal digits. Everything else counts as NaN: fractions, exponents, hexadecimal, surrounding whitespace and `Infinity`. JavaScript's `Number` reads those as numbers.
- Object identity is not modelled. `clampDate` returns the configured `minDate` or `maxDate` object itself, and the time handler's `setHours` then changes that bound in place. The model uses values, so the bounds never change.
- The unused `isAnimating` flag is left out.
- The `onChange` callback's own effects are outside the code. The model records only its arguments, in `notified`.
- `DateCodec.ParseRejectsNonNumericStart`: the null holds only for the number syntax the model covers. JavaScript's `Number` trims surrounding whitespace, so the source parses "\t10/02/2024" as 10 February 2024, while the model gives null.
- `DateCodec.ParseRejectsFalsyField`: the null holds only for the number syntax the model covers. JavaScript's `Number` reads fractions, exponents and hexadecimal, so the source parses "1.5/02/2024" as 1 February 2024, while the model gives null.
- The range of JavaScript dates is not modelled. `Date` time values are limited to ±8.64e15 ms, about the years −271821 to 275760. Outside it, `new Date(y, m - 1, d)` is an Invalid Date, which `parseInputDate` still returns and `formatDate` writes as "NaN/NaN/NaN". The model's years, and so `ValidDate`, are unbounded: "01/01/300000" parses and round-trips in the model.
- Integer width is not modelled. `Number` keeps only 53 bits of precision, and `String` writes integers of 1e21 and above in exponent form. The model's numbers are unbounded integers written in plain digits.
- User edits of the bound input are not modelled. In the source, typing changes `input.value` without running a handler or notifying. In the model no event edits the input, so `inputText` is the text the widget last wrote, and the `Valid` conjunct tying it to the last notification depends on that.
- `Picker.SyncTime`: requires both time fields to read as integers in range (0..23 and 0..59). The number inputs can also hold out-of-range or fractional values, and those would need the `Date` overflow left out above.
