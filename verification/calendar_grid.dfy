/**
 * The two pieces of integer arithmetic in the picker's rendering: the
 * row layout of the day grid in `renderCalendar` and the twelve-year window
 * of `renderYearPanel`. Element creation and styling are not modelled; a
 * grid is a sequence of rows of cells.
 */
module CalendarGrid {
  import opened Wrappers
  import opened Dates
  import opened DateUtils

  /** A `<td>`: an empty leading cell, or a day number with its `selected` mark. */
  datatype Cell = Blank | Day(day: int, selected: bool)

  /**
   * The cell for day `d` of the viewed month: it is marked selected when
   * `new Date(year, month, d)` falls on the selected day.
   */
  function DayCell(year: int, month: int, d: int, selected: Option<CalendarDate>): (c: Cell)
    ensures c.Day? && c.day == d
    ensures c.selected <==> selected.Some? && selected.value.year == JsYear(year)
                            && selected.value.month == month && selected.value.day == d
  {
    Day(d, selected.Some? && IsSameDay(Some(CalendarDate(JsYear(year), month, d, 0, 0)), selected))
  }

  /** The cells of a table in reading order, row after row. */
  function Flatten(rows: seq<seq<Cell>>): seq<Cell>
  {
    if |rows| == 0 then [] else Flatten(rows[..|rows| - 1]) + rows[|rows| - 1]
  }

  function Blanks(n: nat): seq<Cell>
  {
    seq(n, _ => Blank)
  }

  /** The cells for days 1..n of the viewed month. */
  function DayCells(year: int, month: int, selected: Option<CalendarDate>, n: nat): seq<Cell>
  {
    seq(n, i requires 0 <= i < n => DayCell(year, month, i + 1, selected))
  }

  /** Closing a row appends its cells to the table's. */
  lemma FlattenSnoc(rows: seq<seq<Cell>>, row: seq<Cell>)
    ensures Flatten(rows + [row]) == Flatten(rows) + row
  {
    assert (rows + [row])[..|rows|] == rows;
  }

  /** The cells for one more day are the previous ones and that day's cell. */
  lemma DayCellsSnoc(year: int, month: int, selected: Option<CalendarDate>, n: nat)
    ensures DayCells(year, month, selected, n + 1) == DayCells(year, month, selected, n) + [DayCell(year, month, n + 1, selected)]
  {
  }

  /** After `weeks` full rows and an open row of `open` cells, the cell count is a week boundary exactly when the open row is full. */
  lemma WeekBoundary(weeks: nat, open: nat)
    requires 0 < open <= 7
    ensures (7 * weeks + open) % 7 == 0 <==> open == 7
  {
  }

  /** `weeks` full rows and an open row of `open < 7` cells hold `7 * weeks + open` cells. */
  lemma WeeksAndRest(weeks: nat, open: nat)
    requires open < 7
    ensures (7 * weeks + open) / 7 == weeks && (7 * weeks + open) % 7 == open
  {
  }

  /**
   * The loops of `renderCalendar` for a month of `totalDays` days: `firstDay`
   * blanks (the weekday of day 1, 0 = Sunday), then one cell per day; the
   * current row is closed after day `d` when `(firstDay + d) % 7 == 0`, and the
   * last row is appended whatever its length, empty included.
   */
  method LayOutMonth(year: int, month: int, firstDay: nat, selected: Option<CalendarDate>, totalDays: nat)
    returns (rows: seq<seq<Cell>>)
    requires firstDay < 7
    ensures Flatten(rows) == Blanks(firstDay) + DayCells(year, month, selected, totalDays)
    ensures |rows| == (firstDay + totalDays) / 7 + 1
    ensures forall i :: 0 <= i < |rows| - 1 ==> |rows[i]| == 7
    ensures |rows[|rows| - 1]| == (firstDay + totalDays) % 7
  {
    var row: seq<Cell> := [];
    var i := 0;
    while i < firstDay
      invariant 0 <= i <= firstDay
      invariant row == Blanks(i)
    {
      row := row + [Blank];
      i := i + 1;
    }
    rows := [];
    var d := 1;
    while d <= totalDays
      invariant 1 <= d <= totalDays + 1
      invariant Flatten(rows) + row == Blanks(firstDay) + DayCells(year, month, selected, d - 1)
      invariant 7 * |rows| + |row| == firstDay + d - 1 && |row| < 7
      invariant forall k :: 0 <= k < |rows| ==> |rows[k]| == 7
    {
      var cell := DayCell(year, month, d, selected);
      DayCellsSnoc(year, month, selected, d - 1);
      assert Flatten(rows) + (row + [cell]) == (Flatten(rows) + row) + [cell];
      row := row + [cell];
      WeekBoundary(|rows|, |row|);
      if (firstDay + d) % 7 == 0 {
        FlattenSnoc(rows, row);
        rows := rows + [row];
        row := [];
      }
      d := d + 1;
    }
    WeeksAndRest(|rows|, |row|);
    FlattenSnoc(rows, row);
    rows := rows + [row];
  }

  /**
   * The table body of `renderCalendar` for the viewed month: the layout above
   * over `daysInMonth(year, month)` days.
   */
  method RenderCalendar(year: int, month: int, firstDay: nat, selected: Option<CalendarDate>)
    returns (rows: seq<seq<Cell>>)
    requires firstDay < 7
    ensures Flatten(rows) == Blanks(firstDay) + DayCells(year, month, selected, DaysInMonth(year, month))
    ensures |rows| == (firstDay + DaysInMonth(year, month)) / 7 + 1
    ensures forall i :: 0 <= i < |rows| - 1 ==> |rows[i]| == 7
    ensures |rows[|rows| - 1]| == (firstDay + DaysInMonth(year, month)) % 7
  {
    rows := LayOutMonth(year, month, firstDay, selected, DaysInMonth(year, month));
  }

  /** The years `start, start + 1, …` of the `for (y = start; y < start + 12; y++)` loop. */
  function YearsFrom(start: int, count: nat): (years: seq<int>)
    ensures |years| == count
    ensures forall y :: y in years <==> start <= y < start + count
    ensures forall i :: 0 <= i < count ==> years[i] == start + i
    decreases count
  {
    if count == 0 then [] else [start] + YearsFrom(start + 1, count - 1)
  }

  /**
   * The buttons of `renderYearPanel`: twelve consecutive years from six before
   * the viewed year, so the viewed year is the seventh.
   */
  function YearPanel(currentYear: int): (years: seq<int>)
    ensures |years| == 12
    ensures forall y :: y in years <==> currentYear - 6 <= y <= currentYear + 5
    ensures currentYear in years && years[6] == currentYear
  {
    YearsFrom(currentYear - 6, 12)
  }

  /** The window around 2024 is 2018..2029. */
  lemma YearPanelExample()
    ensures YearPanel(2024) == [2018, 2019, 2020, 2021, 2022, 2023, 2024, 2025, 2026, 2027, 2028, 2029]
  {
  }
}
