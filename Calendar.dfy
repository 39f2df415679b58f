/** The calendar object: a cursor on the displayed month, an optional selected
    day and the options `min`, `max`, `showAdjacent` and `weekStart`, with the
    views built from them.  The two change notifications of `ImpactCalendar`
    (one for the selection, one for the cursor) are counted: a counter goes
    up by one each time the corresponding notification fires. */
module Calendar {
  import opened Dates
  import opened Grid

  datatype Option<T> = None | Some(value: T)

  /** An option as a caller passes it: left out, given as null, or given. */
  datatype Setting<T> = Unset | Null | Given(value: T)

  /** A bound after `configure`: replaced when given, removed when null, kept when left out. */
  function Updated(setting: Setting<Date>, current: Option<Date>): Option<Date> {
    match setting
    case Unset => current
    case Null => None
    case Given(d) => Some(d)
  }

  /** The options object accepted by the constructor and by `configure`. */
  datatype Options = Options(
    selected: Setting<Date>,
    showAdjacent: Option<bool>,
    weekStart: Option<int>,
    min: Setting<Date>,
    max: Setting<Date>,
    startDate: Option<Date>)

  /** The units `next` and `previous` accept. */
  datatype Unit = Days | Months | Years

  /** The precision of a comparison in `isEqual`. */
  datatype Granularity = SameYear | SameMonth | SameDay

  /** The unit named by a string; anything but "days", "months" or "years"
      means months. */
  function ParseUnit(name: string): (u: Unit)
    ensures u == Days <==> name == "days"
    ensures u == Years <==> name == "years"
  {
    if name == "days" then Days
    else if name == "years" then Years
    else Months
  }

  /** The step count `skip || 1`: a missing or zero skip means one. */
  function EffectiveSkip(skip: int): (n: int)
    ensures n != 0
    ensures skip == 0 ==> n == 1
    ensures skip != 0 ==> n == skip
  {
    if skip == 0 then 1 else skip
  }

  /** The cursor moved by `n` units (backwards when `n` is negative). */
  function Shift(d: Date, u: Unit, n: int): Date {
    match u
    case Days => AddDays(d, n)
    case Months => AddMonths(d, n)
    case Years => AddYears(d, n)
  }

  /** Moving forward and then back by the same amount returns to the start;
      for months and years this needs a day that exists in every month. */
  lemma {:induction false} ShiftInverse(d: Date, u: Unit, n: int)
    requires u == Days || d.day <= 28
    ensures Shift(Shift(d, u, n), u, -n) == d
  {
    match u
    case Days => AddDaysInverse(d, n);
    case Months => AddMonthsInverse(d, n);
    case Years => AddYearsInverse(d, n);
  }

  /** What a move does: by days it shifts the day number by `n`; by months
      or years it lands `n` months or `12 * n` months further along the
      month count, keeping the day of the month when the target month has it
      and taking that month's last day otherwise. */
  lemma {:induction false} ShiftMoves(d: Date, u: Unit, n: int)
    ensures var r := Shift(d, u, n);
      var dim := DaysInMonth(r.year, r.month);
      (u == Days ==> DayNumber(r) == DayNumber(d) + n) &&
      (u == Months ==> r.year * 12 + r.month == d.year * 12 + d.month + n) &&
      (u == Years ==> r.year == d.year + n && r.month == d.month) &&
      (u != Days ==> (d.day <= dim ==> r.day == d.day) && (d.day > dim ==> r.day == dim))
  {
    match u
    case Days => AddDaysNumber(d, n);
    case Months => AddMonthsCount(d, n);
    case Years =>
      AddYearsAsMonths(d, n);
      AddMonthsCount(d, 12 * n);
  }

  /** Moving a month start by months or years lands on a month start; moving
      it by days lands on the matching day number. */
  lemma {:induction false} ShiftFromMonthStart(d: Date, u: Unit, n: int)
    requires d.day == 1
    ensures u != Days ==> Shift(d, u, n).day == 1
    ensures u == Days ==> DayNumber(Shift(d, u, n)) == DayNumber(d) + n
  {
    if u == Days {
      AddDaysNumber(d, n);
    }
  }

  /** A move by months or years never brings a cursor that is off the first
      of its month back to a first; a move by days can. */
  lemma {:induction false} ShiftKeepsOffMonthStart(d: Date, u: Unit, n: int)
    requires u != Days && d.day != 1
    ensures Shift(d, u, n).day != 1
  {
    ShiftMoves(d, u, n);
  }

  /** From the second day of a month, moving forward by the month's length
      less one day lands on the first of the next month. */
  lemma {:induction false} DaysMoveReachesMonthStart(d: Date)
    requires d.day == 2
    ensures var r := Shift(d, Days, DaysInMonth(d.year, d.month) - 1);
      r == NextDay(EndOfMonth(d)) && r.day == 1
  {
    var first := StartOfMonth(d);
    var dim := DaysInMonth(d.year, d.month);
    AddDaysWithinMonth(d, 1);
    AddDaysWithinMonth(d, dim - 1);
    AddDaysStep(first, dim - 1);
    AddDaysAdd(first, 1, dim - 1);
  }

  /** Whether two days agree at the given precision (moment's `isSame`). */
  predicate Same(a: Date, b: Date, g: Granularity) {
    match g
    case SameYear => a.year == b.year
    case SameMonth => a.year == b.year && a.month == b.month
    case SameDay => a == b
  }

  class ImpactCalendar {
    /** The first day of the displayed month (any day after a move by days). */
    var cursor: Date
    /** The selected day, if any. */
    var date: Option<Date>
    var minDate: Option<Date>
    var maxDate: Option<Date>
    var showAdjacent: bool
    var weekStart: int
    /** Notifications fired for the selection and for the cursor. */
    var dateChanges: nat
    var cursorChanges: nat

    /** Options left out take the defaults (no selection, no adjacent days,
        weeks starting on weekday 1, no bounds); the cursor opens on the month
        of `startDate`, else of the selection, else of `now`. */
    constructor (options: Options, now: Date)
      ensures date == (if options.selected.Given? then Some(options.selected.value) else None)
      ensures showAdjacent == (options.showAdjacent == Some(true))
      ensures weekStart == (if options.weekStart.Some? then options.weekStart.value else 1)
      ensures minDate == (if options.min.Given? then Some(options.min.value) else None)
      ensures maxDate == (if options.max.Given? then Some(options.max.value) else None)
      ensures cursor == StartOfMonth(
        if options.startDate.Some? then options.startDate.value
        else if options.selected.Given? then options.selected.value
        else now)
      ensures dateChanges == 0 && cursorChanges == 0
    {
      date := if options.selected.Given? then Some(options.selected.value) else None;
      showAdjacent := options.showAdjacent == Some(true);
      weekStart := if options.weekStart.Some? then options.weekStart.value else 1;
      minDate := if options.min.Given? then Some(options.min.value) else None;
      maxDate := if options.max.Given? then Some(options.max.value) else None;
      var start :=
        if options.startDate.Some? then options.startDate.value
        else if options.selected.Given? then options.selected.value
        else now;
      cursor := StartOfMonth(start);
      dateChanges, cursorChanges := 0, 0;
    }

    /** Applies the options that are present: a given selection is selected
        (and followed by the cursor), a null one cleared; bounds given as null
        are removed; options left out keep their value. */
    method Configure(options: Options)
      modifies this
      ensures options.selected.Given? ==> (
        var d := options.selected.value;
        date == Some(d) && dateChanges == old(dateChanges) + (if old(date) == Some(d) then 0 else 1) &&
        cursor == StartOfMonth(d) &&
        cursorChanges == old(cursorChanges) + (if old(cursor) == StartOfMonth(d) then 0 else 1))
      ensures options.selected.Null? ==>
        date == None && dateChanges == old(dateChanges) + 1
      ensures options.selected.Unset? ==>
        date == old(date) && dateChanges == old(dateChanges)
      ensures !options.selected.Given? ==> cursor == old(cursor) && cursorChanges == old(cursorChanges)
      ensures minDate == Updated(options.min, old(minDate))
      ensures maxDate == Updated(options.max, old(maxDate))
      ensures showAdjacent == (if options.showAdjacent.Some? then options.showAdjacent.value else old(showAdjacent))
      ensures weekStart == (if options.weekStart.Some? then options.weekStart.value else old(weekStart))
    {
      match options.selected {
        case Given(d) => Select(d, true);
        case Null => Clear();
        case Unset =>
      }
      minDate := Updated(options.min, minDate);
      maxDate := Updated(options.max, maxDate);
      if options.showAdjacent.Some? {
        showAdjacent := options.showAdjacent.value;
      }
      if options.weekStart.Some? {
        weekStart := options.weekStart.value;
      }
    }

    /** Selects day `d`; the selection notification fires only when nothing
        was selected or another day was. Unless `follow` is false the cursor
        moves to the month of `d`. */
    method Select(d: Date, follow: bool)
      modifies this
      ensures date == Some(d)
      ensures forall x :: IsSelected(x) <==> x == d
      ensures dateChanges == old(dateChanges) + (if old(date) == Some(d) then 0 else 1)
      ensures follow ==> (cursor == StartOfMonth(d) &&
        cursorChanges == old(cursorChanges) + (if old(cursor) == StartOfMonth(d) then 0 else 1))
      ensures !follow ==> cursor == old(cursor) && cursorChanges == old(cursorChanges)
      ensures minDate == old(minDate) && maxDate == old(maxDate)
      ensures showAdjacent == old(showAdjacent) && weekStart == old(weekStart)
    {
      if date.None? || date.value != d {
        date := Some(d);
        dateChanges := dateChanges + 1;
      }
      if follow {
        Set(d);
      }
    }

    /** Whether `x` is the selected day. */
    predicate IsSelected(x: Date): (r: bool)
      reads this
      ensures r <==> date == Some(x)
    {
      date.Some? && Same(date.value, x, SameDay)
    }

    /** Whether a day is selected and agrees with `value` at precision `g`. */
    predicate IsEqual(value: Date, g: Granularity): (r: bool)
      reads this
      ensures g == SameYear ==> (r <==> date.Some? && date.value.year == value.year)
      ensures g == SameMonth ==>
        (r <==> date.Some? && date.value.year == value.year && date.value.month == value.month)
      ensures g == SameDay ==> (r <==> date == Some(value))
    {
      date.Some? && Same(date.value, value, g)
    }

    /** `isEqual` at day precision is `isSelected`, and agreeing on the day
        implies agreeing on the month and the year. */
    lemma IsEqualPrecision(x: Date)
      ensures IsEqual(x, SameDay) <==> IsSelected(x)
      ensures IsEqual(x, SameDay) ==> IsEqual(x, SameMonth)
      ensures IsEqual(x, SameMonth) ==> IsEqual(x, SameYear)
      ensures date.None? ==> !IsEqual(x, SameYear)
    {
    }

    /** Drops the selection; the notification fires even when nothing was selected. */
    method Clear()
      modifies this
      ensures date == None && dateChanges == old(dateChanges) + 1
      ensures forall x :: !IsSelected(x)
      ensures cursor == old(cursor) && cursorChanges == old(cursorChanges)
      ensures minDate == old(minDate) && maxDate == old(maxDate)
      ensures showAdjacent == old(showAdjacent) && weekStart == old(weekStart)
    {
      date := None;
      dateChanges := dateChanges + 1;
    }

    /** Moves the cursor to the first day of the month of `d`; the cursor
        notification fires only when that is a different day. */
    method Set(d: Date)
      modifies this
      ensures cursor == StartOfMonth(d)
      ensures cursorChanges == old(cursorChanges) + (if old(cursor) == StartOfMonth(d) then 0 else 1)
      ensures date == old(date) && dateChanges == old(dateChanges)
      ensures minDate == old(minDate) && maxDate == old(maxDate)
      ensures showAdjacent == old(showAdjacent) && weekStart == old(weekStart)
    {
      var start := StartOfMonth(d);
      if start != cursor {
        cursor := start;
        cursorChanges := cursorChanges + 1;
      }
    }

    /** Moves the cursor to the month of `now` and, unless `select` is false,
        selects `now`. */
    method Today(now: Date, select: bool)
      modifies this
      ensures cursor == StartOfMonth(now)
      ensures cursorChanges == old(cursorChanges) + (if old(cursor) == StartOfMonth(now) then 0 else 1)
      ensures select ==> (date == Some(now) &&
        dateChanges == old(dateChanges) + (if old(date) == Some(now) then 0 else 1))
      ensures !select ==> date == old(date) && dateChanges == old(dateChanges)
      ensures minDate == old(minDate) && maxDate == old(maxDate)
      ensures showAdjacent == old(showAdjacent) && weekStart == old(weekStart)
    {
      Set(now);
      if select {
        Select(now, true);
      }
    }

    /** Moves the cursor `skip` units forward (one when `skip` is zero or
        missing); an unknown unit means months. The notification always fires. */
    method Next(unit: string, skip: int)
      modifies this
      ensures cursor == Shift(old(cursor), ParseUnit(unit), EffectiveSkip(skip))
      ensures cursorChanges == old(cursorChanges) + 1
      ensures date == old(date) && dateChanges == old(dateChanges)
      ensures minDate == old(minDate) && maxDate == old(maxDate)
      ensures showAdjacent == old(showAdjacent) && weekStart == old(weekStart)
    {
      cursor := Shift(cursor, ParseUnit(unit), EffectiveSkip(skip));
      cursorChanges := cursorChanges + 1;
    }

    /** Moves the cursor `skip` units back, as `Next` moves it forward. */
    method Previous(unit: string, skip: int)
      modifies this
      ensures cursor == Shift(old(cursor), ParseUnit(unit), -EffectiveSkip(skip))
      ensures cursorChanges == old(cursorChanges) + 1
      ensures date == old(date) && dateChanges == old(dateChanges)
      ensures minDate == old(minDate) && maxDate == old(maxDate)
      ensures showAdjacent == old(showAdjacent) && weekStart == old(weekStart)
    {
      cursor := Shift(cursor, ParseUnit(unit), -EffectiveSkip(skip));
      cursorChanges := cursorChanges + 1;
    }

    /** The day grid of the cursor's month: leading padding, the days of the
        month, trailing padding up to a whole number of weeks. */
    method Days() returns (cells: seq<Cell>)
      ensures cells == DayGrid(cursor, weekStart, showAdjacent)
    {
      var first := StartOfMonth(cursor);
      var diff := Weekday(cursor) - weekStart;
      if diff < 0 {
        diff := diff + 7;
      }
      cells := LeadingCells(first, diff, showAdjacent);
      var day;
      cells, day := AppendMonthDays(cells, first);
      var withMonth := cells;
      cells := AppendTrailingCells(cells, day, showAdjacent);
      assert StartOfMonth(first) == first;
      DaysAssembled(cursor, weekStart, showAdjacent, withMonth, cells);
    }

    /** The week-day header: the 7 labels of `base` (label i for weekday i)
        rotated left once per unit of `weekStart`. */
    method WeekDays<L>(base: seq<L>) returns (labels: seq<L>)
      requires |base| == 7
      ensures |labels| == 7
      ensures weekStart >= 0 ==> forall i :: 0 <= i < 7 ==> labels[i] == base[(i + weekStart) % 7]
      ensures weekStart < 0 ==> labels == base
    {
      if weekStart < 0 {
        labels := base;
      } else {
        labels := RotateLabels(base, weekStart);
        RotatedAt(base, weekStart);
      }
    }

    /** The 12 months of the cursor's year, January first. */
    method Months() returns (months: seq<ImpactMonth>)
      ensures |months| == 12
      ensures forall i :: 0 <= i < 12 ==>
        months[i] == ImpactMonth(YMD(cursor.year, i + 1, 1), i)
    {
      months := [];
      for i := 0 to 12
        invariant |months| == i
        invariant forall j :: 0 <= j < i ==> months[j] == ImpactMonth(YMD(cursor.year, j + 1, 1), j)
      {
        months := months + [NewImpactMonth(SetMonth(cursor, i))];
      }
    }

    /** The 9 years from four before the cursor's year to four after it. */
    method Years() returns (years: seq<ImpactYear>)
      ensures |years| == 9
      ensures forall i :: 0 <= i < 9 ==>
        years[i] == ImpactYear(YMD(cursor.year - 4 + i, 1, 1), cursor.year - 4 + i)
    {
      years := [];
      var startYear := AddYears(cursor, -4);
      for i := 0 to 9
        invariant |years| == i
        invariant forall j :: 0 <= j < i ==>
          years[j] == ImpactYear(YMD(cursor.year - 4 + j, 1, 1), cursor.year - 4 + j)
      {
        years := years + [NewImpactYear(AddYears(startYear, i))];
      }
    }
  }

  /** Seven labels rotated left by `k`: position `j` holds label `(j + k) % 7`. */
  function Rotated<L>(base: seq<L>, k: int): seq<L>
    requires |base| == 7
  {
    seq(7, j => base[(j + k) % 7])
  }

  /** The second loop of `weekDays()`: `k` times, the first label moves to the end. */
  method RotateLabels<L>(base: seq<L>, k: nat) returns (labels: seq<L>)
    requires |base| == 7
    ensures labels == Rotated(base, k)
  {
    labels := base;
    RotatedZero(base);
    var i := 0;
    while i < k
      invariant 0 <= i <= k
      invariant labels == Rotated(base, i)
    {
      RotateLeftOnce(base, i);
      labels := labels[1..] + [labels[0]];  // the first label moves to the end
      i := i + 1;
    }
  }

  lemma RotatedZero<L>(base: seq<L>)
    requires |base| == 7
    ensures Rotated(base, 0) == base
  {
  }

  lemma RotatedAt<L>(base: seq<L>, k: int)
    requires |base| == 7
    ensures forall i :: 0 <= i < 7 ==> Rotated(base, k)[i] == base[(i + k) % 7]
  {
  }

  /** One shift/push step of `weekDays()` turns a rotation by `k` into a
      rotation by `k + 1`. */
  lemma RotateLeftOnce<L>(base: seq<L>, k: int)
    requires |base| == 7
    ensures var labels := Rotated(base, k);
      labels[1..] + [labels[0]] == Rotated(base, k + 1)
  {
    var labels := Rotated(base, k);
    var rotated := labels[1..] + [labels[0]];
    forall j | 0 <= j < 7 ensures rotated[j] == Rotated(base, k + 1)[j] {
      if j < 6 {
        assert rotated[j] == labels[j + 1];
        assert (j + 1) + k == j + (k + 1);
      } else {
        assert rotated[j] == labels[0] == base[(0 + k) % 7];
        ModShift(1, k);
      }
    }
  }

  /** The leading loop of `days()`: `diff` cells (none when `diff` is not
      positive), each the day that many days before `first` or a placeholder. */
  method LeadingCells(first: Date, diff: int, showAdjacent: bool) returns (cells: seq<Cell>)
    ensures |cells| == if diff < 0 then 0 else diff
    ensures forall p :: 0 <= p < |cells| ==> cells[p] == PadCell(first, p - |cells|, showAdjacent)
  {
    cells := [];
    var i := 0;
    while i < diff
      invariant 0 <= i <= (if diff < 0 then 0 else diff) && |cells| == i
      invariant forall p :: 0 <= p < i ==> cells[p] == PadCell(first, p - diff, showAdjacent)
    {
      cells := cells + [if showAdjacent then DayCell(ImpactDay(AddDays(first, i - diff), true)) else Blank];
      i := i + 1;
    }
  }

  /** The middle loop of `days()`: from the first of a month, one cell per day
      while the day is not past the month's last day. Returns the cells and
      the day after the month. */
  method AppendMonthDays(cells0: seq<Cell>, first: Date) returns (cells: seq<Cell>, day: Date)
    requires first.day == 1
    ensures |cells| == |cells0| + DaysInMonth(first.year, first.month)
    ensures cells[..|cells0|] == cells0
    ensures forall p :: |cells0| <= p < |cells| ==>
      cells[p] == DayCell(ImpactDay(YMD(first.year, first.month, p - |cells0| + 1), false))
    ensures day == NextDay(EndOfMonth(first))
  {
    var last := EndOfMonth(first);
    ghost var dim := DaysInMonth(first.year, first.month);
    cells := cells0;
    day := first;
    ghost var k := 0;
    // While the day is before the end of the month's last day, or is that day.
    while IsBefore(day, last) || day == last
      invariant 0 <= k <= dim && |cells| == |cells0| + k
      invariant cells[..|cells0|] == cells0
      invariant k < dim ==> day == YMD(first.year, first.month, k + 1)
      invariant k == dim ==> day == NextDay(last)
      invariant forall p :: |cells0| <= p < |cells| ==>
        cells[p] == DayCell(ImpactDay(YMD(first.year, first.month, p - |cells0| + 1), false))
      decreases dim - k
    {
      cells := cells + [DayCell(ImpactDay(day, false))];
      day := NextDay(day);
      k := k + 1;
    }
  }

  /** The trailing loop of `days()`: cells until the length is a multiple of 7,
      each the next day from `day` on or a placeholder. */
  method AppendTrailingCells(cells0: seq<Cell>, day: Date, showAdjacent: bool) returns (cells: seq<Cell>)
    ensures |cells| == |cells0| + TrailCount(|cells0|)
    ensures cells[..|cells0|] == cells0
    ensures forall p :: |cells0| <= p < |cells| ==> cells[p] == PadCell(day, p - |cells0|, showAdjacent)
  {
    cells := cells0;
    var next := day;
    ghost var t := 0;
    while |cells| % 7 != 0
      invariant 0 <= t <= TrailCount(|cells0|) && |cells| == |cells0| + t
      invariant cells[..|cells0|] == cells0
      invariant showAdjacent ==> next == AddDays(day, t)
      invariant forall p :: |cells0| <= p < |cells| ==> cells[p] == PadCell(day, p - |cells0|, showAdjacent)
      decreases TrailCount(|cells0|) - t
    {
      assert !FullRows(|cells0| + t);
      if showAdjacent {
        cells := cells + [DayCell(ImpactDay(next, true))];
        AddDaysStep(day, t);
        next := NextDay(next);
      } else {
        cells := cells + [Blank];
      }
      t := t + 1;
    }
    assert FullRows(|cells0| + t);
  }

  /** The three loops of `days()` together lay out `DayGrid`. */
  lemma DaysAssembled(cursor: Date, weekStart: int, showAdjacent: bool, withMonth: seq<Cell>, cells: seq<Cell>)
    requires var lead := LeadCount(Weekday(cursor), weekStart);
      |withMonth| == lead + DaysInMonth(cursor.year, cursor.month) &&
      (forall p :: 0 <= p < lead ==> withMonth[p] == PadCell(StartOfMonth(cursor), p - lead, showAdjacent)) &&
      (forall p :: lead <= p < |withMonth| ==>
        withMonth[p] == DayCell(ImpactDay(YMD(cursor.year, cursor.month, p - lead + 1), false))) &&
      |cells| == |withMonth| + TrailCount(|withMonth|) &&
      cells[..|withMonth|] == withMonth &&
      (forall p :: |withMonth| <= p < |cells| ==>
        cells[p] == PadCell(NextDay(EndOfMonth(cursor)), p - |withMonth|, showAdjacent))
    ensures cells == DayGrid(cursor, weekStart, showAdjacent)
  {
    var lead := LeadCount(Weekday(cursor), weekStart);
    var n := |withMonth|;
    var g := DayGrid(cursor, weekStart, showAdjacent);
    GridMonthDays(cursor, weekStart, showAdjacent);
    GridTrailing(cursor, weekStart, showAdjacent);
    assert |cells| == |g|;
    forall p | 0 <= p < n ensures cells[p] == g[p] {
      assert cells[p] == withMonth[p];
    }
  }

  /** Setting two days of the same month one after the other changes nothing
      the second time: the state and the notification count are as after the
      first call. */
  method SetTwice(cal: ImpactCalendar, d1: Date, d2: Date)
    requires StartOfMonth(d1) == StartOfMonth(d2)
    modifies cal
    ensures cal.cursor == StartOfMonth(d1)
    ensures cal.cursorChanges == old(cal.cursorChanges) + (if old(cal.cursor) == StartOfMonth(d1) then 0 else 1)
    ensures cal.date == old(cal.date) && cal.dateChanges == old(cal.dateChanges)
    ensures cal.minDate == old(cal.minDate) && cal.maxDate == old(cal.maxDate)
    ensures cal.showAdjacent == old(cal.showAdjacent) && cal.weekStart == old(cal.weekStart)
  {
    cal.Set(d1);
    cal.Set(d2);
  }

  /** Selecting a day without following it and then clearing leaves nothing
      selected; the selection notification fires once for the clear and once
      more if the day was not already selected; the cursor and the options
      are untouched. */
  method SelectThenClear(cal: ImpactCalendar, d: Date)
    modifies cal
    ensures forall x :: !cal.IsSelected(x)
    ensures cal.dateChanges == old(cal.dateChanges) + (if old(cal.date) == Some(d) then 1 else 2)
    ensures cal.cursor == old(cal.cursor) && cal.cursorChanges == old(cal.cursorChanges)
    ensures cal.minDate == old(cal.minDate) && cal.maxDate == old(cal.maxDate)
    ensures cal.showAdjacent == old(cal.showAdjacent) && cal.weekStart == old(cal.weekStart)
  {
    cal.Select(d, false);
    assert cal.IsSelected(d);
    cal.Clear();
  }
}
