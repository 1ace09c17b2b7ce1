/**
 * The state of one `ChronoPick` instance and its transitions, with the DOM
 * writes stripped: the popup's `display` becomes `visible`, the year panel's
 * `display` becomes `yearGridShown` (the calendar container is always shown
 * exactly when the year panel is not), `input.value` becomes `inputText`, and
 * each `onChange` call appends its argument to `notified`.
 */
module Picker {
  import opened Wrappers
  import opened Dates
  import opened DateUtils
  import opened JsStrings
  import opened DateCodec
  import opened CalendarGrid

  /** The resolved `this.options`, less the locale and the callback. */
  datatype Options = Options(
    format: string,
    minDate: Option<CalendarDate>,
    maxDate: Option<CalendarDate>,
    showTodayButton: bool)

  /** Defaults of the constructor: `format || 'dd/mm/yyyy'` and `showTodayButton ?? true`. */
  function ResolveOptions(format: string, minDate: Option<CalendarDate>, maxDate: Option<CalendarDate>,
                          showTodayButton: Option<bool>): (o: Options)
    ensures format != "" ==> o.format == format
    ensures format == "" ==> o.format == "dd/mm/yyyy" && 'H' !in o.format
    ensures showTodayButton.None? ==> o.showTodayButton
    ensures showTodayButton.Some? ==> o.showTodayButton == showTodayButton.value
    ensures o.minDate == minDate && o.maxDate == maxDate
  {
    Options(if format == "" then "dd/mm/yyyy" else format, minDate, maxDate, showTodayButton.GetOr(true))
  }

  datatype PickerState = PickerState(
    selected: Option<CalendarDate>,   // selectedDate
    viewYear: int,                    // currentYear
    viewMonth: int,                   // currentMonth, 0-based
    yearPanelVisible: bool,           // the yearPanelVisible flag
    yearGridShown: bool,              // whether the year panel is displayed
    yearPanelYears: seq<int>,         // the year buttons last rendered
    visible: bool,                    // whether the popup is displayed
    inputText: string,                // the bound input's value
    notified: seq<string>)            // arguments of onChange, oldest first

  /** The constructor's only error: the input element could not be resolved. */
  datatype Error = InvalidInputElement

  /**
   * The constructor. `input` is the bound element's text, or None when the
   * selector resolved to nothing; `now` is `new Date()`. The selection is the
   * parse of the text, and the view starts at the selection or at `now`.
   */
  function Create(input: Option<string>, now: CalendarDate): (r: Result<PickerState, Error>)
    ensures input.None? <==> r.Failure?
    ensures r.Success? ==> r.value.selected == ParseInputDate(input.value)
    ensures r.Success? && r.value.selected.Some? ==>
              r.value.viewYear == r.value.selected.value.year && r.value.viewMonth == r.value.selected.value.month
    ensures r.Success? && r.value.selected.None? ==> r.value.viewYear == now.year && r.value.viewMonth == now.month
    ensures r.Success? ==> !r.value.visible && !r.value.yearPanelVisible && !r.value.yearGridShown
    ensures r.Success? ==> r.value.inputText == input.value && r.value.notified == []
  {
    if input.None? then Failure(InvalidInputElement)
    else
      var selected := ParseInputDate(input.value);
      var base := selected.GetOr(now);
      Success(PickerState(selected, base.year, base.month, false, false, [], false, input.value, []))
  }

  /**
   * `updateValue`: with a selection, write its formatted text into the input
   * and pass that same text to `onChange`; without one, do nothing.
   */
  function UpdateValue(s: PickerState, opts: Options): (r: PickerState)
    ensures s.selected.None? ==> r == s
    ensures s.selected.Some? ==> r.inputText == FormatDate(s.selected.value, opts.format)
    ensures s.selected.Some? ==> r.notified == s.notified + [r.inputText]
    ensures r.(inputText := s.inputText, notified := s.notified) == s
  {
    if s.selected.None? then s
    else
      var text := FormatDate(s.selected.value, opts.format);
      s.(inputText := text, notified := s.notified + [text])
  }

  /**
   * `selectDate(date, close)`: store the clamped date, move the view to its
   * month, commit its text, and hide the popup only when `close` is set.
   */
  function SelectDate(s: PickerState, opts: Options, date: CalendarDate, close: bool): (r: PickerState)
    ensures r.selected == Some(ClampDate(date, opts.minDate, opts.maxDate))
    ensures r.selected.value == date || Some(r.selected.value) == opts.minDate || Some(r.selected.value) == opts.maxDate
    ensures WithinBounds(date, opts.minDate, opts.maxDate) ==> r.selected == Some(date)
    ensures r.viewYear == r.selected.value.year && r.viewMonth == r.selected.value.month
    ensures r.inputText == FormatDate(r.selected.value, opts.format)
    ensures r.notified == s.notified + [r.inputText]
    ensures r.visible == (s.visible && !close)
    ensures r.yearPanelVisible == s.yearPanelVisible && r.yearGridShown == s.yearGridShown
    ensures r.yearPanelYears == s.yearPanelYears
  {
    var c := ClampDate(date, opts.minDate, opts.maxDate);
    var committed := UpdateValue(s.(selected := Some(c), viewMonth := c.month, viewYear := c.year), opts);
    if close then Hide(committed) else committed
  }

  /** A time field's text the model covers: empty (read as 0) or an integer in 0..max. */
  predicate TimeFieldInRange(text: string, max: int)
  {
    NumberOf(text).Some? && 0 <= NumberOf(text).value <= max
  }

  /**
   * The `sync` handler of the hour and minute inputs: seed an absent selection
   * with `now` (without clamping), set its hour and minute from the fields
   * (`value || 0`), and commit. The view is not moved.
   */
  function SyncTime(s: PickerState, opts: Options, hourText: string, minuteText: string, now: CalendarDate): (r: PickerState)
    requires TimeFieldInRange(hourText, 23) && TimeFieldInRange(minuteText, 59)
    ensures r.selected.Some?
    ensures r.selected.value.hour == NumberOf(hourText).value && r.selected.value.minute == NumberOf(minuteText).value
    ensures StartOfDay(r.selected.value) == StartOfDay(s.selected.GetOr(now))
    ensures r.inputText == FormatDate(r.selected.value, opts.format)
    ensures r.notified == s.notified + [r.inputText]
    ensures r.(selected := s.selected, inputText := s.inputText, notified := s.notified) == s
  {
    var base := s.selected.GetOr(now);
    var timed := base.(hour := NumberOf(hourText).value, minute := NumberOf(minuteText).value);
    UpdateValue(s.(selected := Some(timed)), opts)
  }

  /** Position of a (year, month) pair on a single month counter. */
  function MonthIndex(year: int, month: int): int
  {
    year * 12 + month
  }

  /** The previous-month button: one month back, carrying into the year below January. */
  function Prev(s: PickerState): (r: PickerState)
    ensures 0 <= s.viewMonth ==> MonthIndex(r.viewYear, r.viewMonth) == MonthIndex(s.viewYear, s.viewMonth) - 1
    ensures 0 <= s.viewMonth <= 11 ==> 0 <= r.viewMonth <= 11
    ensures s.viewMonth == 0 ==> r.viewYear == s.viewYear - 1 && r.viewMonth == 11
    ensures r.(viewYear := s.viewYear, viewMonth := s.viewMonth) == s
  {
    if s.viewMonth - 1 < 0 then s.(viewMonth := 11, viewYear := s.viewYear - 1)
    else s.(viewMonth := s.viewMonth - 1)
  }

  /** The next-month button: one month on, carrying into the year after December. */
  function Next(s: PickerState): (r: PickerState)
    ensures s.viewMonth <= 11 ==> MonthIndex(r.viewYear, r.viewMonth) == MonthIndex(s.viewYear, s.viewMonth) + 1
    ensures 0 <= s.viewMonth <= 11 ==> 0 <= r.viewMonth <= 11
    ensures s.viewMonth == 11 ==> r.viewYear == s.viewYear + 1 && r.viewMonth == 0
    ensures r.(viewYear := s.viewYear, viewMonth := s.viewMonth) == s
  {
    if s.viewMonth + 1 > 11 then s.(viewMonth := 0, viewYear := s.viewYear + 1)
    else s.(viewMonth := s.viewMonth + 1)
  }

  /** Prev and Next undo each other on every in-range view. */
  lemma PrevNextInverse(s: PickerState)
    requires 0 <= s.viewMonth <= 11
    ensures Next(Prev(s)) == s && Prev(Next(s)) == s
  {
  }

  /** January 2024 back, December 2024 on. */
  lemma NavigationExamples(s: PickerState)
    ensures var p := Prev(s.(viewYear := 2024, viewMonth := 0)); p.viewYear == 2023 && p.viewMonth == 11
    ensures var n := Next(s.(viewYear := 2024, viewMonth := 11)); n.viewYear == 2025 && n.viewMonth == 0
  {
  }

  /**
   * `toggleYearPanel`: flip the flag, and show the year panel, freshly rendered
   * around the viewed year, exactly when the flag is now set.
   */
  function ToggleYearPanel(s: PickerState): (r: PickerState)
    ensures r.yearPanelVisible == !s.yearPanelVisible
    ensures r.yearGridShown == r.yearPanelVisible
    ensures r.yearGridShown ==> r.yearPanelYears == YearPanel(s.viewYear) && s.viewYear in r.yearPanelYears
    ensures !r.yearGridShown ==> r.yearPanelYears == s.yearPanelYears
    ensures r.(yearPanelVisible := s.yearPanelVisible, yearGridShown := s.yearGridShown,
               yearPanelYears := s.yearPanelYears) == s
  {
    var flag := !s.yearPanelVisible;
    if flag then s.(yearPanelVisible := flag, yearGridShown := true, yearPanelYears := YearPanel(s.viewYear))
    else s.(yearPanelVisible := flag, yearGridShown := false)
  }

  /**
   * A year button's click handler: view that year and show the day grid
   * again. The `yearPanelVisible` flag is left as it was.
   */
  function PickYear(s: PickerState, y: int): (r: PickerState)
    ensures r.viewYear == y && !r.yearGridShown
    ensures r.(viewYear := s.viewYear, yearGridShown := s.yearGridShown) == s
  {
    s.(viewYear := y, yearGridShown := false)
  }

  /** `hide`: the popup is hidden; selection, view and year panel are kept. */
  function Hide(s: PickerState): (r: PickerState)
    ensures !r.visible
    ensures r.(visible := s.visible) == s
  {
    s.(visible := false)
  }

  /** The input's focus handler: the popup is shown; the view is not recomputed. */
  function Focus(s: PickerState): (r: PickerState)
    ensures r.visible
    ensures r.(visible := s.visible) == s
  {
    s.(visible := true)
  }

  /**
   * Because a year pick leaves the flag set, the next click on the month label
   * clears the flag and leaves the day grid in place; only a second click
   * shows the year panel again.
   */
  lemma YearPickLeavesFlagSet(s: PickerState, y: int)
    requires !s.yearPanelVisible
    ensures var first := ToggleYearPanel(s);
            var picked := PickYear(first, y);
            var once := ToggleYearPanel(picked);
            && first.yearGridShown
            && picked.yearPanelVisible && !picked.yearGridShown
            && !once.yearGridShown
            && ToggleYearPanel(once).yearGridShown
  {
  }

  /** Options whose bounds are valid dates. */
  predicate ValidOptions(opts: Options)
  {
    && (opts.minDate.Some? ==> ValidDate(opts.minDate.value))
    && (opts.maxDate.Some? ==> ValidDate(opts.maxDate.value))
  }

  /**
   * The invariant every transition keeps: the view month is in 0..11, a
   * selection is a valid date, the year panel is shown only while its flag is
   * set, and after a commit the input holds what `onChange` last received.
   */
  predicate Valid(s: PickerState)
  {
    && 0 <= s.viewMonth <= 11
    && (s.selected.Some? ==> ValidDate(s.selected.value))
    && (s.yearGridShown ==> s.yearPanelVisible)
    && (|s.notified| > 0 ==> s.inputText == s.notified[|s.notified| - 1])
  }

  /** A freshly built picker is valid when its text parses to a valid date or not at all. */
  lemma CreateValid(input: string, now: CalendarDate)
    requires ValidDate(now)
    requires ParseInputDate(input).Some? ==> ValidDate(ParseInputDate(input).value)
    ensures Create(Some(input), now).Success? && Valid(Create(Some(input), now).value)
  {
  }

  /** With ordered bounds, a selected date always lies within them. */
  lemma SelectDateWithinBounds(s: PickerState, opts: Options, date: CalendarDate, close: bool)
    requires OrderedBounds(opts.minDate, opts.maxDate)
    ensures WithinBounds(SelectDate(s, opts, date, close).selected.value, opts.minDate, opts.maxDate)
  {
    ClampWithinBounds(date, opts.minDate, opts.maxDate);
  }

  /**
   * The time handler does not clamp: setting the hour of a selection that sits
   * on the maximum to a later hour leaves the selection after the maximum.
   */
  lemma SyncTimeIgnoresBounds(s: PickerState, opts: Options, hourText: string, minuteText: string, now: CalendarDate)
    requires TimeFieldInRange(hourText, 23) && TimeFieldInRange(minuteText, 59)
    requires opts.maxDate.Some? && s.selected == opts.maxDate
    requires NumberOf(hourText).value > opts.maxDate.value.hour
    ensures Before(opts.maxDate.value, SyncTime(s, opts, hourText, minuteText, now).selected.value)
    ensures !WithinBounds(SyncTime(s, opts, hourText, minuteText, now).selected.value, opts.minDate, opts.maxDate)
  {
  }

  /**
   * The text a commit writes parses back to the selection (at midnight when
   * the format has no `H`), for any valid selection from year 100 on.
   */
  lemma CommittedTextParsesBack(s: PickerState, opts: Options, date: CalendarDate, close: bool)
    requires ValidDate(date) && ValidOptions(opts)
    requires date.year >= 100
    requires opts.minDate.Some? ==> opts.minDate.value.year >= 100
    requires opts.maxDate.Some? ==> opts.maxDate.value.year >= 100
    ensures var r := SelectDate(s, opts, date, close);
            ParseInputDate(r.inputText) == Some(if 'H' in opts.format then r.selected.value else StartOfDay(r.selected.value))
  {
    var r := SelectDate(s, opts, date, close);
    ParseFormatRoundTrip(r.selected.value, opts.format);
  }
}
