/**
 * The pure date helpers of `src/dateUtils.js`: month length, same-day
 * comparison and clamping to optional bounds.
 */
module DateUtils {
  import opened Wrappers
  import opened Dates

  /** The Gregorian leap-year rule as usually stated. */
  predicate GregorianLeap(y: int)
  {
    y % 4 == 0 && (y % 100 != 0 || y % 400 == 0)
  }

  /** Days in year `y`, as ECMA-262 computes it (DaysInYear). */
  function DaysInYear(y: int): int
  {
    if y % 4 != 0 then 365
    else if y % 100 != 0 then 366
    else if y % 400 != 0 then 365
    else 366
  }

  /**
   * Day of the year on which 0-based month `m` starts; `m == 12` gives the
   * length of the year. This is the cumulative table behind MonthFromTime and
   * DateFromTime in ECMA-262.
   */
  function MonthStart(y: int, m: int): int
    requires 0 <= m <= 12
  {
    var leap := DaysInYear(y) - 365;
    if m == 0 then 0
    else if m == 1 then 31
    else [59, 90, 120, 151, 181, 212, 243, 273, 304, 334, 365][m - 2] + leap
  }

  /**
   * `daysInMonth(year, month)` is `new Date(year, month + 1, 0).getDate()`:
   * the last day of the month before `month + 1`. The constructor reads a
   * year of 0..99 as 19xx and carries an out-of-range month into the year
   * (a floor division by 12), so both are applied before the table lookup.
   */
  function DaysInMonth(year: int, month: int): (r: int)
    ensures 28 <= r <= 31
  {
    var y := JsYear(year) + month / 12;
    var m := month % 12;
    MonthStart(y, m + 1) - MonthStart(y, m)
  }

  /**
   * A date whose fields are all in range, so that the JavaScript `Date` holding
   * it reports exactly these fields back.
   */
  predicate ValidDate(d: CalendarDate)
  {
    && 0 <= d.month <= 11
    && 1 <= d.day <= DaysInMonth(d.year, d.month)
    && 0 <= d.hour <= 23
    && 0 <= d.minute <= 59
  }

  /** February has 29 days exactly in Gregorian leap years, 28 otherwise. */
  lemma FebruaryLeapRule(year: int)
    requires !(0 <= year <= 99)
    ensures DaysInMonth(year, 1) == 29 <==> GregorianLeap(year)
    ensures DaysInMonth(year, 1) == 28 <==> !GregorianLeap(year)
  {
  }

  /** The other eleven months: 30 days in April, June, September, November; 31 otherwise. */
  lemma MonthLengthRule(year: int, month: int)
    requires 0 <= month <= 11 && month != 1
    ensures DaysInMonth(year, month) == (if month in {3, 5, 8, 10} then 30 else 31)
  {
  }

  /** A month index outside 0..11 counts on into the following or preceding years. */
  lemma MonthCarriesIntoYear(year: int, month: int)
    requires 100 <= year
    ensures DaysInMonth(year, month + 12) == DaysInMonth(year + 1, month)
  {
  }

  /** Years 0..99 are read as 1900..1999, so year 0 gets a 28-day February. */
  lemma TwoDigitYears(year: int, month: int)
    requires 0 <= year <= 99
    ensures DaysInMonth(year, month) == DaysInMonth(1900 + year, month)
    ensures DaysInMonth(0, 1) == 28
  {
    assert JsYear(year) == JsYear(1900 + year);
    FebruaryLeapRule(1900);
  }

  /** The cases of the project's unit tests, and the century cases. */
  lemma DaysInMonthExamples()
    ensures DaysInMonth(2024, 1) == 29 && DaysInMonth(2023, 1) == 28
    ensures DaysInMonth(1900, 1) == 28 && DaysInMonth(2000, 1) == 29
  {
    FebruaryLeapRule(2024);
    FebruaryLeapRule(2023);
    FebruaryLeapRule(1900);
    FebruaryLeapRule(2000);
  }

  /**
   * `clampDate(date, min, max)`: a bound that is null is skipped; the min test
   * runs first, so `min` wins when the bounds are inverted.
   */
  function ClampDate(date: CalendarDate, min: Option<CalendarDate>, max: Option<CalendarDate>): (r: CalendarDate)
    ensures r == date || Some(r) == min || Some(r) == max
    ensures min.Some? && Before(date, min.value) ==> r == min.value
    ensures max.Some? && Before(max.value, date) && !(min.Some? && Before(date, min.value)) ==> r == max.value
    ensures (min.None? || NotAfter(min.value, date)) && (max.None? || NotAfter(date, max.value)) ==> r == date
  {
    if min.Some? && Before(date, min.value) then min.value
    else if max.Some? && Before(max.value, date) then max.value
    else date
  }

  /** Bounds that are absent or ordered `min <= max`. */
  predicate OrderedBounds(min: Option<CalendarDate>, max: Option<CalendarDate>)
  {
    min.None? || max.None? || NotAfter(min.value, max.value)
  }

  /** A date lies within the bounds that are present. */
  predicate WithinBounds(d: CalendarDate, min: Option<CalendarDate>, max: Option<CalendarDate>)
  {
    (min.None? || NotAfter(min.value, d)) && (max.None? || NotAfter(d, max.value))
  }

  /** With ordered bounds the clamped date lies within them, and clamping twice changes nothing. */
  lemma ClampWithinBounds(date: CalendarDate, min: Option<CalendarDate>, max: Option<CalendarDate>)
    requires OrderedBounds(min, max)
    ensures WithinBounds(ClampDate(date, min, max), min, max)
    ensures ClampDate(ClampDate(date, min, max), min, max) == ClampDate(date, min, max)
  {
  }

  /** Clamping is the identity exactly on dates within the bounds. */
  lemma ClampFixesExactlyInBounds(date: CalendarDate, min: Option<CalendarDate>, max: Option<CalendarDate>)
    requires OrderedBounds(min, max)
    ensures ClampDate(date, min, max) == date <==> WithinBounds(date, min, max)
  {
  }

  /**
   * Inverted bounds: a date before `min` becomes `min` although `min` is after
   * `max`, and clamping that result again moves it to `max`.
   */
  lemma ClampInvertedBounds(date: CalendarDate, lo: CalendarDate, hi: CalendarDate)
    requires Before(hi, lo) && Before(date, lo)
    ensures ClampDate(date, Some(lo), Some(hi)) == lo
    ensures ClampDate(lo, Some(lo), Some(hi)) == hi
  {
  }

  /**
   * `isSameDay(a, b)`: both present and on the same calendar day. The result is
   * the JavaScript truthiness of the `&&` chain.
   */
  function IsSameDay(a: Option<CalendarDate>, b: Option<CalendarDate>): (r: bool)
    ensures r <==> a.Some? && b.Some? && StartOfDay(a.value) == StartOfDay(b.value)
  {
    a.Some? && b.Some?
    && a.value.year == b.value.year
    && a.value.month == b.value.month
    && a.value.day == b.value.day
  }

  /** Same-day is reflexive and symmetric on present dates, false when either is absent. */
  lemma IsSameDayEquivalence(a: CalendarDate, b: CalendarDate, c: CalendarDate)
    ensures IsSameDay(Some(a), Some(a))
    ensures IsSameDay(Some(a), Some(b)) == IsSameDay(Some(b), Some(a))
    ensures IsSameDay(Some(a), Some(b)) && IsSameDay(Some(b), Some(c)) ==> IsSameDay(Some(a), Some(c))
    ensures !IsSameDay(None, Some(a)) && !IsSameDay(Some(a), None) && !IsSameDay(None, None)
  {
  }

  /** The time of day never matters; a different day always does. */
  lemma IsSameDayIgnoresTime(a: CalendarDate, h: int, m: int)
    ensures IsSameDay(Some(a), Some(a.(hour := h, minute := m)))
    ensures !IsSameDay(Some(a), Some(a.(day := a.day + 1)))
  {
  }
}
