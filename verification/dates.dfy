/**
 * The calendar value the widget works with. A JavaScript `Date` is a millisecond
 * timestamp; here it is the tuple of fields the widget reads from it
 * (`getFullYear`, `getMonth`, `getDate`, `getHours`, `getMinutes`), and the
 * timestamp order becomes the lexicographic order of that tuple.
 */
module Dates {

  /** A point in time. `month` is 0-based, as in `Date.prototype.getMonth`. */
  datatype CalendarDate = CalendarDate(year: int, month: int, day: int, hour: int, minute: int)

  /** Strict chronological order: JavaScript's `a < b` on two dates. */
  predicate Before(a: CalendarDate, b: CalendarDate)
  {
    if a.year != b.year then a.year < b.year
    else if a.month != b.month then a.month < b.month
    else if a.day != b.day then a.day < b.day
    else if a.hour != b.hour then a.hour < b.hour
    else a.minute < b.minute
  }

  /** `a <= b` on two dates. */
  predicate NotAfter(a: CalendarDate, b: CalendarDate)
  {
    !Before(b, a)
  }

  /** The same date at midnight: what `new Date(y, m, d)` builds. */
  function StartOfDay(d: CalendarDate): CalendarDate
  {
    d.(hour := 0, minute := 0)
  }

  /**
   * The year the `Date` constructor actually uses for a year argument:
   * `new Date(y, …)` reads 0..99 as 1900..1999 (MakeFullYear in ECMA-262).
   */
  function JsYear(y: int): (r: int)
    ensures 0 <= y <= 99 ==> r == 1900 + y
    ensures !(0 <= y <= 99) ==> r == y
    ensures !(0 <= r <= 99)
  {
    if 0 <= y <= 99 then 1900 + y else y
  }

  lemma BeforeIrreflexive(a: CalendarDate)
    ensures !Before(a, a)
  {
  }

  lemma BeforeTransitive(a: CalendarDate, b: CalendarDate, c: CalendarDate)
    requires Before(a, b) && Before(b, c)
    ensures Before(a, c)
  {
  }

  /** Two dates are equal or one is strictly earlier: the order is total. */
  lemma BeforeTrichotomy(a: CalendarDate, b: CalendarDate)
    ensures a == b || Before(a, b) || Before(b, a)
    ensures !(Before(a, b) && Before(b, a))
  {
  }
}
