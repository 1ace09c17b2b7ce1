/**
 * `parseInputDate` and `formatDate` of the picker: the text form
 * `dd/mm/yyyy[ HH:MM]` of a date.
 */
module DateCodec {
  import opened Wrappers
  import opened Dates
  import opened JsStrings

  /** `Number` of the i-th `:`-separated piece of a time segment, with `|| 0`. */
  function TimeField(timePart: string, i: nat): int
  {
    OrZero(NumberAt(Split(timePart, ':'), i))
  }

  /**
   * The date segment `d/m/y` as `new Date(y, m - 1, d)` at midnight, or null
   * when any of day, month, year is 0, NaN or missing. Fields past the third
   * are ignored.
   */
  function ParseDateSegment(datePart: string): (r: Option<CalendarDate>)
    ensures r.Some? ==> r.value.day != 0 && r.value.month != -1 && !(0 <= r.value.year <= 99)
    ensures r.Some? ==> r.value.hour == 0 && r.value.minute == 0
  {
    var fields := Split(datePart, '/');
    var d := NumberAt(fields, 0);
    var m := NumberAt(fields, 1);
    var y := NumberAt(fields, 2);
    if !Truthy(d) || !Truthy(m) || !Truthy(y) then None
    else Some(CalendarDate(JsYear(y.value), m.value - 1, d.value, 0, 0))
  }

  /**
   * `parseInputDate(value)`: null for empty text; otherwise the first
   * space-separated piece is the date segment, and a non-empty second piece
   * sets hour and minute, each defaulting to 0. Pieces past the second are
   * ignored.
   */
  function ParseInputDate(value: string): (r: Option<CalendarDate>)
    ensures value == "" ==> r.None?
    ensures r.Some? ==> r.value.day != 0 && r.value.month != -1 && !(0 <= r.value.year <= 99)
  {
    if value == "" then None
    else
      var parts := Split(value, ' ');
      var date := ParseDateSegment(parts[0]);
      var timePart := if |parts| > 1 then parts[1] else "";
      if date.None? then None
      else if timePart == "" then date
      else Some(date.value.(hour := TimeField(timePart, 0), minute := TimeField(timePart, 1)))
  }

  /** The `dd/mm/yyyy` part: padded day, padded 1-based month, unpadded year. */
  function DatePart(date: CalendarDate): string
  {
    Pad(date.day) + "/" + Pad(date.month + 1) + "/" + IntToString(date.year)
  }

  /** The `HH:MM` part: padded hour and minute. */
  function TimePart(date: CalendarDate): string
  {
    Pad(date.hour) + ":" + Pad(date.minute)
  }

  /**
   * `formatDate(date)`: the date part, then ` HH:MM` exactly when the format
   * string contains `H`; nothing else of the format string is read.
   */
  function FormatDate(date: CalendarDate, format: string): (r: string)
    ensures ' ' in r <==> 'H' in format
  {
    NumeralsHaveNoSeparators(Pad(date.day));
    NumeralsHaveNoSeparators(Pad(date.month + 1));
    NumeralsHaveNoSeparators(IntToString(date.year));
    NumeralsHaveNoSeparators(Pad(date.hour));
    NumeralsHaveNoSeparators(Pad(date.minute));
    var out := DatePart(date);
    if 'H' in format then out + " " + TimePart(date) else out
  }

  /** The date part alone: `DD/MM/` and the year, for a day and a 1-based month in 0..99. */
  lemma DatePartLayout(date: CalendarDate)
    requires 0 <= date.day <= 99 && 0 <= date.month + 1 <= 99
    ensures var p := DatePart(date);
            && |p| > 6 && p[2] == '/' && p[5] == '/'
            && AllDigits(p[..2]) && AllDigits(p[3..5]) && p[6..] == IntToString(date.year)
  {
    PadTwoDigits(date.day);
    PadTwoDigits(date.month + 1);
    var a, b, y := Pad(date.day), Pad(date.month + 1), IntToString(date.year);
    var p := DatePart(date);
    assert p == a + "/" + b + "/" + y;
    assert p[..2] == a && p[3..5] == b && p[6..] == y;
  }

  /**
   * Day and month are written with two digits each: for a day and a 1-based
   * month in 0..99, the text is `DD/MM/` followed by the year.
   */
  lemma FormatLayout(date: CalendarDate, format: string)
    requires 0 <= date.day <= 99 && 0 <= date.month + 1 <= 99
    ensures var r := FormatDate(date, format);
            && |r| > 6 && r[2] == '/' && r[5] == '/'
            && AllDigits(r[..2]) && AllDigits(r[3..5])
            && r[6..|DatePart(date)|] == IntToString(date.year)
  {
    DatePartLayout(date);
    var p := DatePart(date);
    var r := FormatDate(date, format);
    FormatStartsWithDatePart(date, format);
    SliceOfPrefix(r, p, 0, 2);
    SliceOfPrefix(r, p, 2, 6);
    SliceOfPrefix(r, p, 6, |p|);
    assert p[2..6][1..3] == p[3..5];
  }

  /** A formatted date begins with its date part. */
  lemma FormatStartsWithDatePart(date: CalendarDate, format: string)
    ensures |DatePart(date)| <= |FormatDate(date, format)|
    ensures FormatDate(date, format)[..|DatePart(date)|] == DatePart(date)
  {
    var p := DatePart(date);
    if 'H' in format {
      assert (p + " " + TimePart(date))[..|p|] == p;
    } else {
      assert p[..|p|] == p;
    }
  }

  /** A slice inside a prefix reads the same in the whole text. */
  lemma SliceOfPrefix(r: string, p: string, i: nat, j: nat)
    requires |p| <= |r| && r[..|p|] == p && i <= j <= |p|
    ensures r[i..j] == p[i..j]
  {
    forall k | 0 <= k < j - i
      ensures r[i..j][k] == p[i..j][k]
    {
      assert r[i + k] == r[..|p|][i + k];
    }
  }

  /** Two format strings that agree on containing `H` format every date alike. */
  lemma FormatReadsOnlyH(date: CalendarDate, f1: string, f2: string)
    requires ('H' in f1) == ('H' in f2)
    ensures FormatDate(date, f1) == FormatDate(date, f2)
  {
  }

  /** The date segment of a formatted date parses back to that day at midnight. */
  lemma DateSegmentRoundTrip(d: CalendarDate)
    requires d.day != 0 && d.month != -1 && d.year != 0
    ensures ' ' !in DatePart(d)
    ensures ParseDateSegment(DatePart(d)) == Some(StartOfDay(d).(year := JsYear(d.year)))
  {
    var fields := [Pad(d.day), Pad(d.month + 1), IntToString(d.year)];
    NumeralsHaveNoSeparators(fields[0]);
    NumeralsHaveNoSeparators(fields[1]);
    NumeralsHaveNoSeparators(fields[2]);
    JoinThree(fields[0], fields[1], fields[2], '/');
    assert Join(fields, '/') == DatePart(d);
    SplitJoin(fields, '/');
    assert Split(DatePart(d), '/') == fields;
    NumberOfPad(d.day);
    NumberOfPad(d.month + 1);
    NumberOfIntToString(d.year);
    assert NumberAt(fields, 0) == Some(d.day);
    assert NumberAt(fields, 1) == Some(d.month + 1);
    assert NumberAt(fields, 2) == Some(d.year);
  }

  /** The time segment of a formatted date gives hour and minute back. */
  lemma TimeSegmentRoundTrip(d: CalendarDate)
    ensures ' ' !in TimePart(d) && TimePart(d) != ""
    ensures TimeField(TimePart(d), 0) == d.hour && TimeField(TimePart(d), 1) == d.minute
  {
    var fields := [Pad(d.hour), Pad(d.minute)];
    NumeralsHaveNoSeparators(fields[0]);
    NumeralsHaveNoSeparators(fields[1]);
    assert Join(fields, ':') == TimePart(d);
    SplitJoin(fields, ':');
    NumberOfPad(d.hour);
    NumberOfPad(d.minute);
  }

  /** Parsing a formatted date splits it back into its date and time segments. */
  lemma FormatSegments(d: CalendarDate, format: string)
    ensures var parts := Split(FormatDate(d, format), ' ');
            && parts[0] == DatePart(d)
            && (if 'H' in format then |parts| > 1 && parts[1] == TimePart(d) else |parts| == 1)
  {
    NumeralsHaveNoSeparators(Pad(d.day));
    NumeralsHaveNoSeparators(Pad(d.month + 1));
    NumeralsHaveNoSeparators(IntToString(d.year));
    if 'H' in format {
      TimeSegmentRoundTrip(d);
      SplitJoin([DatePart(d), TimePart(d)], ' ');
    } else {
      SplitJoin([DatePart(d)], ' ');
    }
  }

  /**
   * Round trip: parsing a formatted date gives the date back, at midnight when
   * the format has no `H`. It needs a day and a month that survive the
   * `!d || !m` test and a year the constructor does not reread as 19xx; every
   * valid date from year 100 on qualifies.
   */
  lemma ParseFormatRoundTrip(d: CalendarDate, format: string)
    requires d.day != 0 && d.month != -1 && !(0 <= d.year <= 99)
    ensures ParseInputDate(FormatDate(d, format)) == Some(if 'H' in format then d else StartOfDay(d))
  {
    FormatSegments(d, format);
    DateSegmentRoundTrip(d);
    TimeSegmentRoundTrip(d);
  }

  /** A year 1..99 does not survive the round trip: it comes back as 19xx. */
  lemma TwoDigitYearComesBackShifted(d: CalendarDate, format: string)
    requires d.day != 0 && d.month != -1 && 1 <= d.year <= 99
    ensures ParseInputDate(FormatDate(d, format)).Some?
    ensures ParseInputDate(FormatDate(d, format)).value.year == 1900 + d.year
  {
    FormatSegments(d, format);
    DateSegmentRoundTrip(d);
  }

  /**
   * Text that does not start with a digit or a sign never parses: its day
   * field is empty (read as 0) or not a number.
   */
  lemma ParseRejectsNonNumericStart(value: string)
    requires value != "" && !IsDigit(value[0]) && value[0] != '-' && value[0] != '+'
    ensures ParseInputDate(value).None?
  {
  }

  /**
   * A date segment whose day, month or year field is 0, empty or not a number
   * never parses.
   */
  lemma ParseRejectsFalsyField(dayText: string, monthText: string, yearText: string)
    requires '/' !in dayText && '/' !in monthText && '/' !in yearText
    requires ' ' !in dayText && ' ' !in monthText && ' ' !in yearText
    requires !Truthy(NumberOf(dayText)) || !Truthy(NumberOf(monthText)) || !Truthy(NumberOf(yearText))
    ensures ParseInputDate(dayText + "/" + monthText + "/" + yearText).None?
  {
    var value := dayText + "/" + monthText + "/" + yearText;
    JoinThree(dayText, monthText, yearText, '/');
    SplitJoin([dayText, monthText, yearText], '/');
    SplitPiece(value, "", ' ');
    assert value + "" == value;
  }

  /**
   * A date segment whose three fields are non-zero numbers parses to
   * `new Date(y, m - 1, d)` at midnight: the month is stored 0-based, and no
   * padding is needed.
   */
  lemma ParseAcceptsTruthyFields(dayText: string, monthText: string, yearText: string)
    requires '/' !in dayText && '/' !in monthText && '/' !in yearText
    requires ' ' !in dayText && ' ' !in monthText && ' ' !in yearText
    requires Truthy(NumberOf(dayText)) && Truthy(NumberOf(monthText)) && Truthy(NumberOf(yearText))
    ensures ParseInputDate(dayText + "/" + monthText + "/" + yearText)
            == Some(CalendarDate(JsYear(NumberOf(yearText).value), NumberOf(monthText).value - 1,
                                 NumberOf(dayText).value, 0, 0))
  {
    var value := dayText + "/" + monthText + "/" + yearText;
    JoinThree(dayText, monthText, yearText, '/');
    SplitJoin([dayText, monthText, yearText], '/');
    SplitPiece(value, "", ' ');
    assert value + "" == value;
  }

  /** Typed text with a two-digit year: "10/02/24" is 10 February 1924. */
  lemma TwoDigitYearText()
    ensures ParseInputDate("10/02/24") == Some(CalendarDate(1924, 1, 10, 0, 0))
  {
    assert NumberOf("10") == Some(10) by {
      assert "10"[..1] == "1" && "1"[..0] == "";
      assert DigitsValue("1") == 1;
    }
    assert NumberOf("02") == Some(2) by {
      assert "02"[..1] == "0";
    }
    assert NumberOf("24") == Some(24) by {
      assert "24"[..1] == "2";
    }
    ParseAcceptsTruthyFields("10", "02", "24");
    assert "10" + "/" + "02" + "/" + "24" == "10/02/24";
  }

  /** A date segment with only two fields has no year and never parses. */
  lemma ParseRejectsMissingYear(dayText: string, monthText: string)
    requires '/' !in dayText && '/' !in monthText
    requires ' ' !in dayText && ' ' !in monthText
    ensures ParseInputDate(dayText + "/" + monthText).None?
  {
    var value := dayText + "/" + monthText;
    assert Join([dayText, monthText], '/') == value;
    SplitJoin([dayText, monthText], '/');
    SplitPiece(value, "", ' ');
    assert value + "" == value;
  }

  /**
   * Text without a space has no time segment, so the parsed date is at
   * midnight.
   */
  lemma ParseWithoutTimeIsMidnight(value: string)
    requires ' ' !in value
    ensures ParseInputDate(value).Some? ==> ParseInputDate(value).value.hour == 0
    ensures ParseInputDate(value).Some? ==> ParseInputDate(value).value.minute == 0
  {
  }

  /**
   * A time segment changes only hour and minute: whether the text parses, and
   * the date fields, come from the date segment alone. A segment without `:`
   * leaves the minute at 0.
   */
  lemma ParseTimeSegment(datePart: string, timePart: string)
    requires ' ' !in datePart && ' ' !in timePart && timePart != ""
    ensures var withTime := ParseInputDate(datePart + " " + timePart);
            var plain := ParseInputDate(datePart);
            && withTime.Some? == plain.Some?
            && (plain.Some? ==> withTime.value == plain.value.(hour := TimeField(timePart, 0), minute := TimeField(timePart, 1)))
            && (withTime.Some? && ':' !in timePart ==> withTime.value.minute == 0)
  {
    SplitPiece(datePart, " " + timePart, ' ');
    assert datePart + " " + timePart == datePart + (" " + timePart);
    assert (" " + timePart)[1..] == timePart;
    SplitPiece(timePart, "", ' ');
    assert timePart + "" == timePart;
    SplitPiece(datePart, "", ' ');
    assert datePart + "" == datePart;
    if ':' !in timePart {
      SplitPiece(timePart, "", ':');
    }
  }
}
