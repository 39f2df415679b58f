# impact-calendar, modelled in Dafny

A model of the reactive calendar object `ImpactCalendar` of the Meteor package
`forwarder:impact-calendar` (`lib/calendar.js`). The calendar keeps:

- a **cursor**, usually the first day of the displayed month (see Findings for when it is not);
- an optional **selected day**;
- the options `min`, `max`, `showAdjacent` and `weekStart`.

From these it builds the views a calendar widget draws:

- the **day grid** of the displayed month, padded to whole weeks;
- the **week-day header**, rotated to the week start;
- the 12 **months** of the cursor's year;
- a 9-**year** window around the cursor's year.

The object has two change notifications, one for the selection and one for
the cursor. Each is modelled as a counter that goes up by one each time the
notification fires.

Files:

- `Dates.dfy` (module `Dates`): proleptic Gregorian dates. It covers leap
  years, month lengths, day numbers, weekdays (Sunday = 0, the default
  locale's numbering), and stepping by days, months and years. This is the
  part of the date library the calendar relies on.
- `Grid.dfy` (module `Grid`): the records `ImpactDay`, `ImpactMonth` and
  `ImpactYear`. It also holds `DayGrid`, the grid `days()` returns, stated as
  a specification, with the lemmas about its shape, contents and alignment.
- `Calendar.dfy` (module `Calendar`): the class `ImpactCalendar` with the
  source's state and its operations. `configure`, `select`, `clear`, `set`,
  `today`, `next` and `previous` are methods with `modifies this`. `days`,
  `weekDays`, `months` and `years` are read-only methods with loops.
  `Days` is proved equal to `DayGrid`.

The leading padding of the day grid is counted from the weekday of the
cursor itself, as the code does (`lib/calendar.js:246` and `:250`). The first
of the month is computed at `:247` but not used for this. At a month start the
two are the same. After a move by days they can differ; see Findings.

## Model

| member | source | states |
|---|---|---|
| `Dates.DaysInMonth` | lib/calendar.js:248 | a month has 28 to 31 days (February has 29 in a leap year); this bounds the last day `endOf('month')` reaches |
| `Dates.YearLength` | lib/calendar.js:248 | the twelve months of a year add up to 366 days in a leap year and 365 otherwise |
| `Dates.YearStep` | lib/calendar.js:250 | consecutive years start 365 or 366 day numbers apart, following the 4/100/400 leap rule |
| `Dates.NextDayNumber` | lib/calendar.js:264 | the day after a date, as `add(1, 'days')` gives it, has the next day number, including across month and year ends |
| `Dates.PrevNext` | lib/calendar.js:255 | going one day forward and then one day back returns the same date |
| `Dates.NextPrev` | lib/calendar.js:255 | going one day back and then one day forward returns the same date |
| `Dates.StartFollowsPreviousEnd` | lib/calendar.js:255-269 | the day before the 1st is the last day of the previous month; the day after the last day is the 1st of the next month |
| `Dates.AddDaysStep` | lib/calendar.js:255 | adding `n + 1` days is adding `n` days and one more, for negative `n` too |
| `Dates.AddDaysNumber` | lib/calendar.js:203 | adding `n` days moves the day number by exactly `n`, in both directions |
| `Dates.AddDaysAdd` | lib/calendar.js:203 | adding `a` days and then `b` days is adding `a + b` days |
| `Dates.AddDaysInverse` | lib/calendar.js:203-211 | `subtract(n, 'days')` undoes `add(n, 'days')` |
| `Dates.Weekday` | lib/calendar.js:250 | the weekday is a number in 0..6 |
| `Dates.WeekdayAnchor` | lib/calendar.js:250 | weekday 0 is Sunday: 1 January 1970 is weekday 4 (Thursday) and 1 January 2024 is weekday 1 (Monday) |
| `Dates.WeekdayAddDays` | lib/calendar.js:250 | the weekday advances by one per day, modulo 7 |
| `Dates.AddDaysWithinMonth` | lib/calendar.js:261-265 | `k` days after the 1st is day `k + 1` of the same month, for every `k` below the month length |
| `Dates.AddMonthsCount` | lib/calendar.js:203 | adding `n` months lands `n` months further on; the day is kept when the target month has it, and otherwise becomes the last day of the target month |
| `Dates.AddYearsAsMonths` | lib/calendar.js:203 | adding `n` years is adding `12 * n` months, so 29 February becomes 28 February in a common year |
| `Dates.SetMonth` | lib/calendar.js:300 | `month(i)` keeps the year, moves to month `i + 1`, and keeps the day when that month has it, else takes the month's last day |
| `Dates.AddMonthsInverse` | lib/calendar.js:203-211 | `subtract(n, 'months')` undoes `add(n, 'months')` for a day present in every month |
| `Dates.AddYearsInverse` | lib/calendar.js:203-211 | `subtract(n, 'years')` undoes `add(n, 'years')` for a day present in every month |
| `Grid.ImpactDay.Day` | lib/calendar.js:10-14 | the day number a grid cell shows is a day of its month, in 1..DaysInMonth |
| `Grid.NewImpactMonth` | lib/calendar.js:26-30 | the month record holds the 1st of the day's month, which is never after the day, and its 0-based month index |
| `Grid.NewImpactYear` | lib/calendar.js:36-39 | the year record holds 1 January of the day's year, which is never after the day, and the year's number |
| `Grid.LeadCount` | lib/calendar.js:250-253 | the leading cell count is `(weekday - weekStart) mod 7`, below 7, when the week start is in 0..6 |
| `Grid.TrailCount` | lib/calendar.js:267-274 | the trailing cell count is below 7, completes a multiple of 7, and is the smallest count that does |
| `Grid.GridShape` | lib/calendar.js:243-277 | the grid is whole weeks: the leading cells, the days of the month, then fewer than 7 trailing cells; 28 to 42 cells for a week start in 0..6 |
| `Grid.GridMonthDays` | lib/calendar.js:261-265 | after the leading cells come the days 1..DaysInMonth of the cursor's month, in order, each not adjacent |
| `Grid.GridTrailing` | lib/calendar.js:267-274 | the trailing cells are consecutive days from the 1st of the next month, or placeholders |
| `Grid.GridPaddingBlank` | lib/calendar.js:253-274 | without `showAdjacent` a cell is an empty placeholder exactly when it is padding |
| `Grid.GridPaddingAdjacent` | lib/calendar.js:253-274 | with `showAdjacent` every cell is a day, and its `isAdjacent()` holds exactly when it is padding |
| `Grid.GridConsecutive` | lib/calendar.js:253-274 | with `showAdjacent` the cells are consecutive days; the leading cells end on the last day of the previous month and the trailing cells start on the 1st of the next |
| `Grid.GridColumns` | lib/calendar.js:243-293 | when the cursor is the 1st of its month and the week start is in 0..6, every day sits in the header column of its own weekday |
| `Grid.DayGridMisaligned` | lib/calendar.js:246-251 | with the cursor on Tuesday 2 January 2024 and weeks starting Monday, Monday 1 January lands in the Tuesday column |
| `Grid.AlignedGridColumns` | lib/calendar.js:247-251 | counting the leading cells from the 1st of the month keeps every day under its weekday, for every cursor and every week start in 0..6 |
| `Calendar.ParseUnit` | lib/calendar.js:200-202 | "days" and "years" name their own units; every other name means months |
| `Calendar.EffectiveSkip` | lib/calendar.js:203 | a missing or zero skip counts as 1, any other skip as itself |
| `Calendar.ShiftMoves` | lib/calendar.js:203 | `cursor.add(n, unit)` moves the day number by `n` for days, and moves `n` months (or `n` years) along the month count for months (or years), keeping the day of the month when the target month has it, else taking its last day |
| `Calendar.ShiftInverse` | lib/calendar.js:199-213 | `previous(type, skip)` undoes `next(type, skip)` for days, and for months and years when the day exists in every month (always at a month start) |
| `Calendar.ShiftFromMonthStart` | lib/calendar.js:199-213 | moving a month-start cursor by months or years keeps it a month start; moving it by days moves its day number by exactly that much |
| `Calendar.ShiftKeepsOffMonthStart` | lib/calendar.js:199-213 | `next`/`previous` by months or years never move a cursor that is off the 1st back onto a 1st |
| `Calendar.DaysMoveReachesMonthStart` | lib/calendar.js:199-205 | from the 2nd of a month, `next('days', n)` with `n` one less than the month's length lands on the 1st of the next month |
| `Calendar.ImpactCalendar.constructor` | lib/calendar.js:45-72 | missing options take the defaults (no selection, no adjacent days, week start 1, no bounds); the cursor opens on the month of `startDate`, else of the selection, else of now |
| `Calendar.ImpactCalendar.Configure` | lib/calendar.js:74-102 | a given selection is selected and followed by the cursor; a null selection is cleared and notified; null bounds are removed; given options replace the old ones; missing ones are kept |
| `Calendar.ImpactCalendar.Select` | lib/calendar.js:111-119 | the selection becomes `d` and `isSelected` holds of `d` alone; the selection is notified only when it changed; unless `follow` is false the cursor moves to `d`'s month, notified only if that changed it |
| `Calendar.ImpactCalendar.IsSelected` | lib/calendar.js:121-130 | a day is selected exactly when there is a selection and it is that day |
| `Calendar.ImpactCalendar.IsEqual` | lib/calendar.js:179-182 | with no selection nothing is equal; otherwise a value is equal exactly when it has the selection's year (year precision), its year and month (month precision), or is the selected day (day precision) |
| `Calendar.ImpactCalendar.IsEqualPrecision` | lib/calendar.js:179-182 | `isEqual` at day precision is `isSelected`; agreeing on the day implies agreeing on the month and the year; with no selection nothing is equal |
| `Calendar.ImpactCalendar.Clear` | lib/calendar.js:132-135 | nothing is selected afterwards, and the notification fires even if nothing was selected before |
| `Calendar.ImpactCalendar.Set` | lib/calendar.js:144-150 | the cursor becomes the 1st of `d`'s month, notified only when that differs from the old cursor |
| `Calendar.ImpactCalendar.Today` | lib/calendar.js:152-157 | the cursor moves to the month of now; unless `select` is false, now becomes the selection |
| `Calendar.ImpactCalendar.Next` | lib/calendar.js:199-205 | the cursor moves `skip` (default 1) units forward, with unknown units read as months; the notification always fires; nothing else changes |
| `Calendar.ImpactCalendar.Previous` | lib/calendar.js:207-213 | the same, backwards |
| `Calendar.ImpactCalendar.Days` | lib/calendar.js:243-277 | the three loops build exactly `DayGrid(cursor, weekStart, showAdjacent)` |
| `Calendar.LeadingCells` | lib/calendar.js:253-259 | the leading loop puts `diff` cells (none for a negative `diff`); each is the adjacent day `diff - i` days before the 1st, or a placeholder |
| `Calendar.AppendMonthDays` | lib/calendar.js:261-265 | the middle loop appends days 1..DaysInMonth of the month in order and stops on the 1st of the next month |
| `Calendar.AppendTrailingCells` | lib/calendar.js:267-274 | the trailing loop appends the fewest cells that complete a week: consecutive adjacent days, or placeholders |
| `Calendar.DaysAssembled` | lib/calendar.js:243-277 | the three loops' results together are `DayGrid` |
| `Calendar.RotateLabels` | lib/calendar.js:288-290 | `k` rounds of `push(shift())` leave the labels rotated left by `k` |
| `Calendar.RotateLeftOnce` | lib/calendar.js:288-290 | one `push(shift())` turns a rotation by `k` into a rotation by `k + 1` |
| `Calendar.ImpactCalendar.WeekDays` | lib/calendar.js:279-293 | the header is the 7 base labels with position `i` holding label `(i + weekStart) mod 7`; a negative week start leaves the base order |
| `Calendar.ImpactCalendar.Months` | lib/calendar.js:295-304 | the 12 months of the cursor's year, January to December, each at its 1st day with its 0-based month index |
| `Calendar.ImpactCalendar.Years` | lib/calendar.js:306-316 | the 9 consecutive years from four before to four after the cursor's year, each at 1 January |
| `Calendar.SetTwice` | lib/calendar.js:144-150 | calling `set` with two days of the same month leaves the cursor and the notification count as after the first call, and changes neither the selection nor the options |
| `Calendar.SelectThenClear` | lib/calendar.js:111-135 | after `select(d, false)` then `clear()` nothing is selected; the selection notification fires once more than for the clear alone unless `d` was already selected; the cursor, its notification count and the options are unchanged |

## Left out

- Time of day, time zones and daylight saving: a date is a calendar day. So `isSame(x, 'day')` is equality, and `isEqual` with no unit compares days, not milliseconds.
- Calendar.ImpactCalendar.IsEqual: covers only the year, month and day precisions; moment's other units (week, hour, …) are not modelled.
- Locale: weekdays are numbered from Sunday (the default locale's `weekday()`). Labels and names (`format('dd')`, `format('MMMM')`, `format('YYYY')`) are not modelled; `weekDays` takes the 7 base labels as a parameter.
- The range of dates moment accepts: years are unbounded integers.
- Tracker dependency tracking, `Tracker.active`, `Tracker.nonreactive`, and the `get()`/`selected()` accessors that register a dependency: the cursor and the selection are plain fields, and the notifications are counters.
- ReactiveDict internals: the options are plain fields. Its own change notifications are not counted. The copy of `selected` that `configure` stores in the dictionary is never read by the calendar and is not kept.
- Calendar.ImpactCalendar.constructor: notifications fired during construction are not counted (both counters start at 0), because no computation can depend on the object before it exists.
- `configure(key, value)` is modelled through its object form: a caller builds the `Options` record with the one key. Values of other types than the source expects (a `min` that is neither a date nor null, a falsy non-null `selected`) are not modelled.
- `min(date)` and `max(date)`: modelled only as the `minDate`/`maxDate` fields that `configure` sets; the calendar never reads them.
- `isToday`, `ImpactMonth.isCurrent` and `ImpactYear.isCurrent` depend on the wall clock. `today()` takes "now" as a parameter.
- `toDate`, `toString`, `toNumber`: conversions of the selection to other representations.
- `year(y)` and `month(m)`: they depend on how moment coerces a bare number in `isSame`, which is outside this code.
- Calendar.ImpactCalendar.Next, Calendar.ImpactCalendar.Previous: the source moves the cursor object in place (`cursor.add`, `cursor.subtract`), while `set` replaces it with a new object. `get()` hands out that same object, so a reference a caller got from `get()` moves with later `next`/`previous` calls but not with `set`. The model's cursor is a date value, so it does not capture this aliasing.
- The re-computation timer of `isToday` (`setInterval`), and `package.js` (a package manifest without logic).

## Findings

| source | as written | input that shows it | evidently intended | confidence | as-written member | corrected member |
|---|---|---|---|---|---|---|
| lib/calendar.js:246-251 | the number of leading cells is taken from the weekday of the cursor, `date.weekday()` | `next('days')` from January 2024 puts the cursor on Tuesday 2 January; with `weekStart` 1 the grid has 1 leading cell, so Monday 1 January appears in the header's Tuesday column | take the weekday of `startDate`, the first of the month, so that every day sits under its own weekday | medium; not executed | `Grid.DayGridMisaligned` | `Grid.AlignedGridColumns` |

`Calendar.ImpactCalendar.Days` keeps the code's behaviour, and `Grid.GridColumns`
proves that behaviour correct whenever the cursor is on the 1st of a month and
the week start is in 0..6.
`next('days')` or `previous('days')` can move the cursor off the 1st. Moves by
months or years keep the day of the month or take the target month's last day,
so they never bring it back to a 1st (`Calendar.ShiftKeepsOffMonthStart`). A
move by days that lands on a 1st does (`Calendar.DaysMoveReachesMonthStart`),
and so do `set`, `select` with follow, `today` and `configure({selected})`. `Grid.AlignedDayGrid`
is the corrected layout.
