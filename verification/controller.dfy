/**
 * The event wiring of the picker as a pure step function: each host event
 * (focus, a click outside, a button, a cell, a time field) maps to the
 * transition its handler performs.
 */
module Controller {
  import opened Wrappers
  import opened Dates
  import opened DateUtils
  import opened JsStrings
  import opened DateCodec
  import opened CalendarGrid
  import opened Picker

  datatype Event =
    | InputFocus                                                // input.onfocus
    | OutsideClick                                              // document click outside popup and input
    | PrevMonth                                                 // prevBtn.onclick
    | NextMonth                                                 // nextBtn.onclick
    | MonthLabel                                                // monthLabel.onclick
    | YearCell(year: int)                                       // a year button's onclick
    | DayCellClick(day: int)                                    // a day cell's onclick
    | TodayButton(now: CalendarDate)                            // todayBtn.onclick, `now` is new Date()
    | TimeInput(hourText: string, minuteText: string, now: CalendarDate)  // oninput of a time field

  /** Events whose target is an element inside the popup. */
  predicate InPopup(e: Event)
  {
    !e.InputFocus? && !e.OutsideClick?
  }

  /**
   * Whether the element an event targets is on the page and displayed: every
   * element inside the popup needs the popup shown; beyond that, a year button
   * of the rendered panel while the panel is shown, a day of the viewed month
   * while the day grid is shown, the today button when configured, the time
   * fields only in a format with `H`.
   */
  predicate Possible(s: PickerState, opts: Options, e: Event)
  {
    && (InPopup(e) ==> s.visible)
    && match e
       case YearCell(y) => s.yearGridShown && y in s.yearPanelYears
       case DayCellClick(d) => !s.yearGridShown && 1 <= d <= DaysInMonth(s.viewYear, s.viewMonth)
       case TodayButton(_) => opts.showTodayButton
       case TimeInput(_, _, _) => 'H' in opts.format
       case _ => true
  }

  /**
   * Events whose values the model covers: clocks reading valid dates and time
   * fields whose numbers need no `Date` overflow.
   */
  predicate InRange(e: Event)
  {
    match e
    case TodayButton(now) => ValidDate(now)
    case TimeInput(h, m, now) => ValidDate(now) && TimeFieldInRange(h, 23) && TimeFieldInRange(m, 59)
    case _ => true
  }

  /**
   * The date a day cell carries: `new Date(currentYear, currentMonth, d)`. For
   * a rendered cell it is a real date, so `Date` does not normalise it, and it
   * is the date the re-rendered grid marks as selected once it is picked.
   */
  function CellDate(s: PickerState, d: int): (c: CalendarDate)
    ensures 0 <= s.viewMonth <= 11 && 1 <= d <= DaysInMonth(s.viewYear, s.viewMonth) ==> ValidDate(c)
    ensures DayCell(s.viewYear, s.viewMonth, d, Some(c)).selected
  {
    CalendarDate(JsYear(s.viewYear), s.viewMonth, d, 0, 0)
  }

  /** One event; an event on an element that is not there changes nothing. */
  function Step(s: PickerState, opts: Options, e: Event): (r: PickerState)
    requires InRange(e)
    ensures !Possible(s, opts, e) ==> r == s
    ensures InPopup(e) && !s.visible ==> r == s
    ensures e.OutsideClick? ==> !r.visible
    ensures e.InputFocus? ==> r.visible
    ensures r.notified == s.notified || (|r.notified| == |s.notified| + 1 && r.notified[..|s.notified|] == s.notified)
    ensures e.PrevMonth? || e.NextMonth? || e.MonthLabel? || e.YearCell? || e.InputFocus? || e.OutsideClick?
            ==> r.selected == s.selected && r.inputText == s.inputText && r.notified == s.notified
  {
    if !Possible(s, opts, e) then s
    else
      match e
      case InputFocus => Focus(s)
      case OutsideClick => Hide(s)
      case PrevMonth => Prev(s)
      case NextMonth => Next(s)
      case MonthLabel => ToggleYearPanel(s)
      case YearCell(y) => PickYear(s, y)
      case DayCellClick(d) => SelectDate(s, opts, CellDate(s, d), false)
      case TodayButton(now) => SelectDate(s, opts, now, true)
      case TimeInput(h, m, now) => SyncTime(s, opts, h, m, now)
  }

  /** A clamp between valid bounds of a valid date is a valid date. */
  lemma ClampValid(date: CalendarDate, opts: Options)
    requires ValidDate(date) && ValidOptions(opts)
    ensures ValidDate(ClampDate(date, opts.minDate, opts.maxDate))
  {
  }

  /** A pick of a valid date keeps the invariant. */
  lemma SelectDateValid(s: PickerState, opts: Options, date: CalendarDate, close: bool)
    requires Valid(s) && ValidOptions(opts) && ValidDate(date)
    ensures Valid(SelectDate(s, opts, date, close))
  {
    ClampValid(date, opts);
  }

  /** Setting an in-range time on a valid selection, or on a valid `now`, keeps the invariant. */
  lemma SyncTimeValid(s: PickerState, opts: Options, h: string, m: string, now: CalendarDate)
    requires Valid(s) && ValidDate(now) && TimeFieldInRange(h, 23) && TimeFieldInRange(m, 59)
    ensures Valid(SyncTime(s, opts, h, m, now))
  {
    var base := s.selected.GetOr(now);
    assert ValidDate(base);
  }

  /** Every event keeps the invariant. */
  lemma StepPreservesValid(s: PickerState, opts: Options, e: Event)
    requires Valid(s) && ValidOptions(opts) && InRange(e)
    ensures Valid(Step(s, opts, e))
  {
    if Possible(s, opts, e) {
      match e
      case DayCellClick(d) => SelectDateValid(s, opts, CellDate(s, d), false);
      case TodayButton(now) => SelectDateValid(s, opts, now, true);
      case TimeInput(h, m, now) => SyncTimeValid(s, opts, h, m, now);
      case _ =>
    }
  }

  /** The events in order. */
  function Run(s: PickerState, opts: Options, events: seq<Event>): PickerState
    requires forall i :: 0 <= i < |events| ==> InRange(events[i])
    decreases |events|
  {
    if |events| == 0 then s else Run(Step(s, opts, events[0]), opts, events[1..])
  }

  /** Any sequence of events keeps the invariant. */
  lemma {:induction false} RunPreservesValid(s: PickerState, opts: Options, events: seq<Event>)
    requires Valid(s) && ValidOptions(opts)
    requires forall i :: 0 <= i < |events| ==> InRange(events[i])
    ensures Valid(Run(s, opts, events))
    decreases |events|
  {
    if |events| > 0 {
      StepPreservesValid(s, opts, events[0]);
      RunPreservesValid(Step(s, opts, events[0]), opts, events[1..]);
    }
  }

  /** Navigation, the year panel and focus changes never touch the selection or the input. */
  lemma {:induction false} ViewEventsKeepSelection(s: PickerState, opts: Options, events: seq<Event>)
    requires forall i :: 0 <= i < |events| ==>
               events[i].PrevMonth? || events[i].NextMonth? || events[i].MonthLabel? ||
               events[i].YearCell? || events[i].InputFocus? || events[i].OutsideClick?
    ensures var r := Run(s, opts, events);
            r.selected == s.selected && r.inputText == s.inputText && r.notified == s.notified
    decreases |events|
  {
    if |events| > 0 {
      ViewEventsKeepSelection(Step(s, opts, events[0]), opts, events[1..]);
    }
  }

  /**
   * A walk-through: text "10/02/2024" selects 10 February 2024;
   * focus shows February 2024; next shows March; picking 15 March with close
   * writes "15/03/2024", hides the popup and notifies once with that text.
   */
  lemma Walkthrough(now: CalendarDate)
    ensures var opts := ResolveOptions("", None, None, None);
            var created := Create(Some("10/02/2024"), now);
            && created.Success?
            && created.value.selected == Some(CalendarDate(2024, 1, 10, 0, 0))
            && var focused := Focus(created.value);
               && focused.visible && focused.viewMonth == 1 && focused.viewYear == 2024
               && var moved := Next(focused);
                  && moved.viewMonth == 2
                  && var done := SelectDate(moved, opts, CalendarDate(2024, 2, 15, 0, 0), true);
                     && !done.visible
                     && done.inputText == "15/03/2024"
                     && done.notified == ["15/03/2024"]
  {
    var feb := CalendarDate(2024, 1, 10, 0, 0);
    var mar := CalendarDate(2024, 2, 15, 0, 0);
    FormatFebruaryExample();
    FormatMarchExample();
    ParseFormatRoundTrip(feb, "dd/mm/yyyy");
  }

  /** Formatting the walk-through's first date, without a time. */
  lemma FormatFebruaryExample()
    ensures FormatDate(CalendarDate(2024, 1, 10, 0, 0), "dd/mm/yyyy") == "10/02/2024"
  {
    Numerals();
    assert 'H' !in "dd/mm/yyyy";
    assert DatePart(CalendarDate(2024, 1, 10, 0, 0)) == "10" + "/" + "02" + "/" + "2024";
  }

  /** Formatting the walk-through's second date, without a time. */
  lemma FormatMarchExample()
    ensures FormatDate(CalendarDate(2024, 2, 15, 0, 0), "dd/mm/yyyy") == "15/03/2024"
  {
    Numerals();
    assert 'H' !in "dd/mm/yyyy";
    assert DatePart(CalendarDate(2024, 2, 15, 0, 0)) == "15" + "/" + "03" + "/" + "2024";
  }

  /** The numerals of the walk-through's two dates. */
  lemma Numerals()
    ensures IntToString(2024) == "2024"
    ensures Pad(10) == "10" && Pad(2) == "02" && Pad(15) == "15" && Pad(3) == "03"
  {
    assert NatToString(2) == "2";
    assert NatToString(20) == "20";
    assert NatToString(202) == "202";
    assert NatToString(2024) == "2024";
    assert NatToString(1) == "1";
    assert NatToString(10) == "10";
    assert NatToString(15) == "15";
  }
}
