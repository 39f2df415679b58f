/** The records the calendar hands to a view (`ImpactDay`, `ImpactMonth`,
    `ImpactYear`) and the month grid that `days()` lays out, given as a
    specification: cell `p` of the grid shows the day `p - lead` days after
    the first of the month, where `lead` is the number of leading cells. */
module Grid {
  import opened Dates

  /** One day of the grid; `adjacent` marks a day of the previous or next month. */
  datatype ImpactDay = ImpactDay(date: Date, adjacent: bool) {
    /** The day of the month shown in the cell. */
    function Day(): (n: int)
      ensures 1 <= n <= DaysInMonth(date.year, date.month)
    {
      date.day
    }

    predicate IsAdjacent() {
      adjacent
    }
  }

  /** A grid cell: a day, or the empty placeholder used when adjacent days are hidden. */
  datatype Cell = Blank | DayCell(day: ImpactDay)

  /** A month of the year list: its first day and its 0-based month index. */
  datatype ImpactMonth = ImpactMonth(date: Date, month: int)

  /** A year of the year window: its first day and its number. */
  datatype ImpactYear = ImpactYear(date: Date, year: int)

  /** The month of `d`: its first day, never after `d`, and its 0-based index. */
  function NewImpactMonth(d: Date): (r: ImpactMonth)
    ensures r.date.year == d.year && r.date.month == d.month && r.date.day == 1
    ensures !IsBefore(d, r.date)
    ensures 0 <= r.month < 12 && r.month + 1 == d.month
  {
    ImpactMonth(StartOfMonth(d), d.month - 1)
  }

  /** The year of `d`: its first day, never after `d`, and its number. */
  function NewImpactYear(d: Date): (r: ImpactYear)
    ensures r.date.year == d.year && r.date.month == 1 && r.date.day == 1
    ensures !IsBefore(d, r.date)
    ensures r.year == d.year
  {
    ImpactYear(StartOfYear(d), d.year)
  }

  /** How many leading cells come before the first day: the weekday minus the
      week start, plus 7 when that is negative; a count the loop cannot reach
      (a negative one) puts no cell. For a week start in 0..6 it is the
      distance modulo 7. */
  function LeadCount(weekday: int, weekStart: int): (n: nat)
    ensures 0 <= weekday < 7 && 0 <= weekStart < 7 ==> n < 7 && n == (weekday - weekStart) % 7
    ensures 0 <= weekday < 7 && weekStart >= 0 ==> n < 7
  {
    var diff := weekday - weekStart;
    var diff' := if diff < 0 then diff + 7 else diff;
    if diff' < 0 then 0 else diff'
  }

  /** A grid of this many cells ends on a full row. */
  predicate FullRows(len: int) {
    len % 7 == 0
  }

  /** How many trailing cells close the last row: the fewest that make the
      length a multiple of 7. */
  function TrailCount(n: nat): (t: nat)
    ensures t < 7
    ensures FullRows(n + t)
    ensures forall j :: n <= j < n + t ==> !FullRows(j)
  {
    if n % 7 == 0 then 0 else 7 - n % 7
  }

  /** A padding cell: the day `offset` days from `from`, flagged adjacent, or
      the empty placeholder when adjacent days are hidden. */
  function PadCell(from: Date, offset: int, showAdjacent: bool): Cell {
    if showAdjacent then DayCell(ImpactDay(AddDays(from, offset), true)) else Blank
  }

  /** Cell `p` of a grid whose month starts at `first`, with `lead` leading
      cells and `n` cells before the trailing padding. */
  function CellAt(first: Date, lead: int, n: int, showAdjacent: bool, p: int): Cell {
    if lead <= p < n then DayCell(ImpactDay(AddDays(first, p - lead), false))
    else PadCell(first, p - lead, showAdjacent)
  }

  /** The grid `days()` returns for a cursor, a week start and the
      `showAdjacent` option. The number of leading cells is taken from the
      weekday of the cursor itself, which is the first of the month only
      when the cursor sits on one. */
  function DayGrid(cursor: Date, weekStart: int, showAdjacent: bool): seq<Cell> {
    var first := StartOfMonth(cursor);
    var lead := LeadCount(Weekday(cursor), weekStart);
    var n := lead + DaysInMonth(cursor.year, cursor.month);
    seq(n + TrailCount(n), p => CellAt(first, lead, n, showAdjacent, p))
  }

  /** The grid with its leading cells counted from the weekday of the first of
      the cursor's month. */
  function AlignedDayGrid(cursor: Date, weekStart: int, showAdjacent: bool): seq<Cell> {
    DayGrid(StartOfMonth(cursor), weekStart, showAdjacent)
  }

  // ---------------------------------------------------------------------------
  // Properties of the grid

  /** The grid is whole rows of 7; it is the leading cells, the days of the
      month and fewer than 7 trailing cells; for a week start in 0..6 it has
      4, 5 or 6 rows. */
  lemma GridShape(cursor: Date, weekStart: int, showAdjacent: bool)
    ensures var g := DayGrid(cursor, weekStart, showAdjacent);
      var lead := LeadCount(Weekday(cursor), weekStart);
      var dim := DaysInMonth(cursor.year, cursor.month);
      |g| % 7 == 0 && lead + dim <= |g| < lead + dim + 7 &&
      (0 <= weekStart < 7 ==> lead < 7 && 28 <= |g| <= 42)
  {
  }

  /** After the leading cells come the days 1..DaysInMonth of the cursor's
      month, in order, none of them adjacent. */
  lemma {:induction false} GridMonthDays(cursor: Date, weekStart: int, showAdjacent: bool)
    ensures var g := DayGrid(cursor, weekStart, showAdjacent);
      var lead := LeadCount(Weekday(cursor), weekStart);
      var n := lead + DaysInMonth(cursor.year, cursor.month);
      n <= |g| &&
      forall p :: lead <= p < n ==>
        g[p] == DayCell(ImpactDay(YMD(cursor.year, cursor.month, p - lead + 1), false))
  {
    var g := DayGrid(cursor, weekStart, showAdjacent);
    var lead := LeadCount(Weekday(cursor), weekStart);
    var n := lead + DaysInMonth(cursor.year, cursor.month);
    forall p | lead <= p < n
      ensures g[p] == DayCell(ImpactDay(YMD(cursor.year, cursor.month, p - lead + 1), false))
    {
      AddDaysWithinMonth(cursor, p - lead);
    }
  }

  /** The trailing cells continue from the first day of the next month. */
  lemma {:induction false} GridTrailing(cursor: Date, weekStart: int, showAdjacent: bool)
    ensures var g := DayGrid(cursor, weekStart, showAdjacent);
      var lead := LeadCount(Weekday(cursor), weekStart);
      var n := lead + DaysInMonth(cursor.year, cursor.month);
      forall p :: n <= p < |g| ==> g[p] == PadCell(NextDay(EndOfMonth(cursor)), p - n, showAdjacent)
  {
    var g := DayGrid(cursor, weekStart, showAdjacent);
    var first := StartOfMonth(cursor);
    var lead := LeadCount(Weekday(cursor), weekStart);
    var dim := DaysInMonth(cursor.year, cursor.month);
    var n := lead + dim;
    AddDaysWithinMonth(cursor, dim - 1);
    AddDaysStep(first, dim - 1);
    forall p | n <= p < |g| ensures g[p] == PadCell(NextDay(EndOfMonth(cursor)), p - n, showAdjacent) {
      AddDaysAdd(first, dim, p - n);
    }
  }

  /** Without `showAdjacent` every padding cell is an empty placeholder, and
      the day cells are exactly the days of the month. */
  lemma GridPaddingBlank(cursor: Date, weekStart: int)
    ensures var g := DayGrid(cursor, weekStart, false);
      var lead := LeadCount(Weekday(cursor), weekStart);
      var n := lead + DaysInMonth(cursor.year, cursor.month);
      forall p :: 0 <= p < |g| ==> (g[p] == Blank <==> p < lead || n <= p)
  {
  }

  /** With `showAdjacent` every padding cell is an adjacent day and every cell
      of the month is not. */
  lemma GridPaddingAdjacent(cursor: Date, weekStart: int)
    ensures var g := DayGrid(cursor, weekStart, true);
      var lead := LeadCount(Weekday(cursor), weekStart);
      var n := lead + DaysInMonth(cursor.year, cursor.month);
      forall p :: 0 <= p < |g| ==> g[p].DayCell? && (g[p].day.IsAdjacent() <==> p < lead || n <= p)
  {
  }

  /** With `showAdjacent`, the cell after cell `p` shows the day after it. */
  lemma {:induction false} GridStep(cursor: Date, weekStart: int, p: int)
    requires 0 <= p < |DayGrid(cursor, weekStart, true)| - 1
    ensures var g := DayGrid(cursor, weekStart, true);
      g[p + 1].day.date == NextDay(g[p].day.date)
  {
    var g := DayGrid(cursor, weekStart, true);
    var first := StartOfMonth(cursor);
    var lead := LeadCount(Weekday(cursor), weekStart);
    var n := lead + DaysInMonth(cursor.year, cursor.month);
    assert g[p].day.date == AddDays(first, p - lead) by {
      assert g[p] == CellAt(first, lead, n, true, p);
    }
    assert g[p + 1].day.date == AddDays(first, p - lead + 1) by {
      assert g[p + 1] == CellAt(first, lead, n, true, p + 1);
    }
    AddDaysStep(first, p - lead);
  }

  /** With `showAdjacent` the cells show consecutive days: the leading cells
      end on the last day of the previous month and the trailing cells begin
      on the first day of the next month. */
  lemma {:induction false} GridConsecutive(cursor: Date, weekStart: int)
    ensures var g := DayGrid(cursor, weekStart, true);
      var lead := LeadCount(Weekday(cursor), weekStart);
      var n := lead + DaysInMonth(cursor.year, cursor.month);
      (forall p :: 0 <= p < |g| - 1 ==> g[p + 1].day.date == NextDay(g[p].day.date)) &&
      (lead > 0 ==> g[lead - 1].day.date == PrevDay(StartOfMonth(cursor)) &&
                    g[lead - 1].day.date == EndOfMonth(g[lead - 1].day.date)) &&
      (n < |g| ==> g[n].day.date == NextDay(EndOfMonth(cursor)) && g[n].day.date.day == 1)
  {
    var g := DayGrid(cursor, weekStart, true);
    var first := StartOfMonth(cursor);
    var lead := LeadCount(Weekday(cursor), weekStart);
    var dim := DaysInMonth(cursor.year, cursor.month);
    forall p | 0 <= p < |g| - 1 ensures g[p + 1].day.date == NextDay(g[p].day.date) {
      GridStep(cursor, weekStart, p);
    }
    StartFollowsPreviousEnd(cursor);
    if lead > 0 {
      assert g[lead - 1].day.date == AddDays(first, -1);
      assert AddDays(first, -1) == PrevDay(AddDays(first, 0));
    }
    if lead + dim < |g| {
      AddDaysWithinMonth(cursor, dim - 1);
      AddDaysStep(first, dim - 1);
    }
  }

  /** Column arithmetic: with `lead == (w - weekStart) % 7`, the day `p - lead`
      days after a day of weekday `w` falls on weekday `(p % 7 + weekStart) % 7`. */
  lemma ColumnWeekday(w: int, weekStart: int, lead: int, p: int)
    requires 0 <= w < 7 && 0 <= weekStart < 7 && lead == (w - weekStart) % 7
    ensures (w + (p - lead)) % 7 == (p % 7 + weekStart) % 7
  {
    ModShift((w - weekStart) / 7, p + weekStart);
    ModShift(p / 7, p % 7 + weekStart);
  }

  /** When the cursor is the first of its month and the week start is in
      0..6, every day cell sits in the column whose header is its weekday:
      column `c` of the week-day header shows weekday `(c + weekStart) % 7`. */
  lemma {:induction false} GridColumns(cursor: Date, weekStart: int, showAdjacent: bool)
    requires cursor.day == 1
    requires 0 <= weekStart < 7
    ensures var g := DayGrid(cursor, weekStart, showAdjacent);
      forall p :: 0 <= p < |g| && g[p].DayCell? ==>
        Weekday(g[p].day.date) == (p % 7 + weekStart) % 7
  {
    var g := DayGrid(cursor, weekStart, showAdjacent);
    var w := Weekday(cursor);
    var lead := LeadCount(w, weekStart);
    var n := lead + DaysInMonth(cursor.year, cursor.month);
    assert StartOfMonth(cursor) == cursor;
    forall p | 0 <= p < |g| && g[p].DayCell?
      ensures Weekday(g[p].day.date) == (p % 7 + weekStart) % 7
    {
      assert g[p] == CellAt(cursor, lead, n, showAdjacent, p);
      assert g[p].day.date == AddDays(cursor, p - lead);
      WeekdayAddDays(cursor, p - lead);
      ColumnWeekday(w, weekStart, lead, p);
    }
  }

  /** The grid as laid out misplaces the month when the cursor is not the
      first of its month: with the cursor on Tuesday 2 January 2024 and weeks
      starting on Monday, Monday 1 January lands in the Tuesday column. */
  lemma DayGridMisaligned()
    ensures var cursor: Date := YMD(2024, 1, 2);
      var g := DayGrid(cursor, 1, false);
      1 < |g| && g[1] == DayCell(ImpactDay(YMD(2024, 1, 1), false)) &&
      Weekday(g[1].day.date) == 1 && Weekday(g[1].day.date) != (1 % 7 + 1) % 7
  {
    var cursor: Date := YMD(2024, 1, 2);
    var first: Date := YMD(2024, 1, 1);
    assert DaysBeforeYear(2024) == 738885;
    assert DayNumber(first) == 738886 && Weekday(first) == 1;
    assert DayNumber(cursor) == 738887 && Weekday(cursor) == 2;
    var n := 1 + DaysInMonth(2024, 1);
    assert n == 32 && TrailCount(n) == 3;
    var g := DayGrid(cursor, 1, false);
    assert g[1] == CellAt(first, 1, n, false, 1);
    AddDaysWithinMonth(cursor, 0);
  }

  /** The grid laid out from the first of the month keeps every day under its
      weekday for every cursor, and otherwise has the shape of `days()`. */
  lemma AlignedGridColumns(cursor: Date, weekStart: int, showAdjacent: bool)
    requires 0 <= weekStart < 7
    ensures var g := AlignedDayGrid(cursor, weekStart, showAdjacent);
      |g| % 7 == 0 &&
      forall p :: 0 <= p < |g| && g[p].DayCell? ==>
        Weekday(g[p].day.date) == (p % 7 + weekStart) % 7
  {
    GridShape(StartOfMonth(cursor), weekStart, showAdjacent);
    GridColumns(StartOfMonth(cursor), weekStart, showAdjacent);
  }
}
