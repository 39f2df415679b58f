/** Proleptic Gregorian calendar arithmetic: the part of the date library that
    the calendar relies on (start of month, adding days, months and years,
    the weekday of a day).  Time of day, time zones and locales are not
    modelled: a date is a calendar day. */
module Dates {

  /** A year, a month 1..12 and a day of the month; `Date` keeps only the real ones. */
  datatype YMD = YMD(year: int, month: int, day: int)

  predicate IsLeapYear(y: int) {
    y % 4 == 0 && (y % 100 != 0 || y % 400 == 0)
  }

  function DaysInMonth(y: int, m: int): (n: int)
    requires 1 <= m <= 12
    ensures 28 <= n <= 31
  {
    if m == 2 then (if IsLeapYear(y) then 29 else 28)
    else if m == 4 || m == 6 || m == 9 || m == 11 then 30
    else 31
  }

  predicate IsValid(d: YMD) {
    1 <= d.month <= 12 && 1 <= d.day <= DaysInMonth(d.year, d.month)
  }

  type Date = d: YMD | IsValid(d) witness YMD(1970, 1, 1)

  function StartOfMonth(d: Date): Date {
    YMD(d.year, d.month, 1)
  }

  function EndOfMonth(d: Date): Date {
    YMD(d.year, d.month, DaysInMonth(d.year, d.month))
  }

  function StartOfYear(d: Date): Date {
    YMD(d.year, 1, 1)
  }

  /** Chronological order of days: earlier year, else earlier month, else earlier day. */
  predicate IsBefore(a: Date, b: Date) {
    a.year < b.year ||
    (a.year == b.year && (a.month < b.month || (a.month == b.month && a.day < b.day)))
  }

  // ---------------------------------------------------------------------------
  // Day numbers and weekdays

  /** Days in the years before `y` (year 1 contributes nothing before itself). */
  function DaysBeforeYear(y: int): int {
    365 * (y - 1) + (y - 1) / 4 - (y - 1) / 100 + (y - 1) / 400
  }

  /** Days in the months of year `y` before month `m`. */
  function DaysBeforeMonth(y: int, m: int): int
    requires 1 <= m <= 12
  {
    var cumulative := [0, 31, 59, 90, 120, 151, 181, 212, 243, 273, 304, 334];
    cumulative[m - 1] + (if m > 2 && IsLeapYear(y) then 1 else 0)
  }

  /** The running number of a day; 0001-01-01 is day 1. */
  function DayNumber(d: Date): int {
    DaysBeforeYear(d.year) + DaysBeforeMonth(d.year, d.month) + d.day
  }

  /** The weekday of a day, Sunday = 0 … Saturday = 6 (0001-01-01 was a Monday). */
  function Weekday(d: Date): (w: int)
    ensures 0 <= w < 7
  {
    DayNumber(d) % 7
  }

  /** The numbering is anchored on the calendar: 1 January 1970 was a Thursday
      (weekday 4) and 1 January 2024 a Monday (weekday 1). */
  lemma WeekdayAnchor()
    ensures Weekday(YMD(1970, 1, 1)) == 4
    ensures Weekday(YMD(2024, 1, 1)) == 1
  {
    assert DaysBeforeYear(1970) == 719162;
    assert DaysBeforeYear(2024) == 738885;
  }

  lemma {:induction false} YearLength(y: int)
    ensures DaysBeforeMonth(y, 12) + DaysInMonth(y, 12) == if IsLeapYear(y) then 366 else 365
  {
  }

  lemma DivStep(x: int, k: int)
    requires k == 4 || k == 100 || k == 400
    ensures x / k - (x - 1) / k == if x % k == 0 then 1 else 0
  {
    var q, r := (x - 1) / k, (x - 1) % k;
    assert x == k * q + r + 1;
    if r + 1 < k {
      assert x / k == q && x % k == r + 1;
    } else {
      assert x == k * (q + 1);
      assert x / k == q + 1 && x % k == 0;
    }
  }

  lemma Mod100Mod4(y: int)
    requires y % 100 == 0
    ensures y % 4 == 0
  {
    var k := 25 * (y / 100);
    assert y == 4 * k;
  }

  lemma Mod400Mod100(y: int)
    requires y % 400 == 0
    ensures y % 100 == 0
  {
    var k := 4 * (y / 400);
    assert y == 100 * k;
  }

  /** Consecutive years are 365 or 366 days apart, as the leap-year rule says. */
  lemma {:induction false} YearStep(y: int)
    ensures DaysBeforeYear(y + 1) == DaysBeforeYear(y) + if IsLeapYear(y) then 366 else 365
  {
    DivStep(y, 4);
    DivStep(y, 100);
    DivStep(y, 400);
    var a := if y % 4 == 0 then 1 else 0;
    var b := if y % 100 == 0 then 1 else 0;
    var c := if y % 400 == 0 then 1 else 0;
    assert DaysBeforeYear(y + 1) == DaysBeforeYear(y) + 365 + a - b + c;
    if y % 100 == 0 {
      Mod100Mod4(y);
    }
    if y % 400 == 0 {
      Mod400Mod100(y);
    }
  }

  // ---------------------------------------------------------------------------
  // Stepping one day

  function NextDay(d: Date): Date {
    if d.day < DaysInMonth(d.year, d.month) then YMD(d.year, d.month, d.day + 1)
    else if d.month < 12 then YMD(d.year, d.month + 1, 1)
    else YMD(d.year + 1, 1, 1)
  }

  function PrevDay(d: Date): Date {
    if d.day > 1 then YMD(d.year, d.month, d.day - 1)
    else if d.month > 1 then YMD(d.year, d.month - 1, DaysInMonth(d.year, d.month - 1))
    else YMD(d.year - 1, 12, 31)
  }

  /** The day after a day is exactly one day number later. */
  lemma {:induction false} NextDayNumber(d: Date)
    ensures DayNumber(NextDay(d)) == DayNumber(d) + 1
  {
    if d.day == DaysInMonth(d.year, d.month) {
      if d.month < 12 {
        assert DaysBeforeMonth(d.year, d.month + 1) == DaysBeforeMonth(d.year, d.month) + d.day;
      } else {
        YearLength(d.year);
        YearStep(d.year);
      }
    }
  }

  lemma {:induction false} PrevNext(d: Date)
    ensures PrevDay(NextDay(d)) == d
  {
  }

  lemma {:induction false} NextPrev(d: Date)
    ensures NextDay(PrevDay(d)) == d
  {
  }

  /** The first day of a month comes right after the last day of the month before. */
  lemma {:induction false} StartFollowsPreviousEnd(d: Date)
    ensures PrevDay(StartOfMonth(d)) == EndOfMonth(PrevDay(StartOfMonth(d)))
    ensures NextDay(EndOfMonth(d)) == StartOfMonth(NextDay(EndOfMonth(d)))
    ensures NextDay(EndOfMonth(d)).day == 1
  {
  }

  // ---------------------------------------------------------------------------
  // Adding days, months and years

  /** `n` days later (earlier when `n` is negative), one day at a time. */
  function AddDays(d: Date, n: int): Date
    decreases if n < 0 then -n else n
  {
    if n == 0 then d
    else if n > 0 then NextDay(AddDays(d, n - 1))
    else PrevDay(AddDays(d, n + 1))
  }

  lemma {:induction false} AddDaysStep(d: Date, n: int)
    ensures AddDays(d, n + 1) == NextDay(AddDays(d, n))
  {
    if n < 0 {
      NextPrev(AddDays(d, n + 1));
    }
  }

  /** Adding days moves the day number by exactly that many days. */
  lemma {:induction false} AddDaysNumber(d: Date, n: int)
    ensures DayNumber(AddDays(d, n)) == DayNumber(d) + n
    decreases if n < 0 then -n else n
  {
    if n > 0 {
      AddDaysNumber(d, n - 1);
      NextDayNumber(AddDays(d, n - 1));
    } else if n < 0 {
      AddDaysNumber(d, n + 1);
      NextPrev(AddDays(d, n + 1));
      NextDayNumber(AddDays(d, n));
    }
  }

  lemma {:induction false} AddDaysAdd(d: Date, a: int, b: int)
    ensures AddDays(AddDays(d, a), b) == AddDays(d, a + b)
    decreases if b < 0 then -b else b
  {
    if b > 0 {
      AddDaysAdd(d, a, b - 1);
      AddDaysStep(d, a + b - 1);
    } else if b < 0 {
      AddDaysAdd(d, a, b + 1);
      AddDaysStep(d, a + b);
      PrevNext(AddDays(d, a + b));
    }
  }

  /** Going `n` days forward and `n` days back returns to the same day. */
  lemma {:induction false} AddDaysInverse(d: Date, n: int)
    ensures AddDays(AddDays(d, n), -n) == d
  {
    AddDaysAdd(d, n, -n);
  }

  /** Weekdays advance by one per day, modulo 7. */
  lemma {:induction false} WeekdayAddDays(d: Date, n: int)
    ensures Weekday(AddDays(d, n)) == (Weekday(d) + n) % 7
  {
    AddDaysNumber(d, n);
    var x := DayNumber(d);
    ModShift(x / 7, x % 7 + n);
  }

  lemma ModShift(q: int, r: int)
    ensures (7 * q + r) % 7 == r % 7
  {
    var a, b := (7 * q + r) / 7, r / 7;
    assert 7 * q + r == 7 * a + (7 * q + r) % 7;
    assert r == 7 * b + r % 7;
    assert 7 * (a - q - b) == r % 7 - (7 * q + r) % 7;
  }

  /** From the first of a month, the k-th day later is day k + 1 of the same month. */
  lemma {:induction false} AddDaysWithinMonth(d: Date, k: int)
    requires 0 <= k < DaysInMonth(d.year, d.month)
    ensures AddDays(StartOfMonth(d), k) == YMD(d.year, d.month, k + 1)
  {
    if k > 0 {
      AddDaysWithinMonth(d, k - 1);
    }
  }

  function Min(a: int, b: int): int {
    if a < b then a else b
  }

  /** `n` months later, keeping the day of the month unless the target month
      is shorter, in which case its last day. */
  function AddMonths(d: Date, n: int): Date {
    var t := d.year * 12 + (d.month - 1) + n;
    var y, m := t / 12, t % 12 + 1;
    YMD(y, m, Min(d.day, DaysInMonth(y, m)))
  }

  /** `n` years later; 29 February becomes 28 February in a common year. */
  function AddYears(d: Date, n: int): Date {
    YMD(d.year + n, d.month, Min(d.day, DaysInMonth(d.year + n, d.month)))
  }

  /** Adding months lands `n` months further along the month count, and keeps
      the day of the month whenever that day exists there; otherwise the day
      becomes the last day of the target month. */
  lemma {:induction false} AddMonthsCount(d: Date, n: int)
    ensures var r := AddMonths(d, n);
      r.year * 12 + r.month == d.year * 12 + d.month + n &&
      r.day <= d.day &&
      (d.day <= DaysInMonth(r.year, r.month) ==> r.day == d.day) &&
      (d.day > DaysInMonth(r.year, r.month) ==> r.day == DaysInMonth(r.year, r.month))
  {
  }

  /** Adding `n` years is adding `12 * n` months. */
  lemma {:induction false} AddYearsAsMonths(d: Date, n: int)
    ensures AddYears(d, n) == AddMonths(d, 12 * n)
  {
    var t := d.year * 12 + (d.month - 1) + 12 * n;
    assert t == (d.year + n) * 12 + (d.month - 1);
    assert t / 12 == d.year + n && t % 12 == d.month - 1;
  }

  /** Months forward then back returns to the same day when no clamping happened. */
  lemma {:induction false} AddMonthsInverse(d: Date, n: int)
    requires d.day <= 28
    ensures AddMonths(AddMonths(d, n), -n) == d
  {
    AddMonthsCount(d, n);
    var r := AddMonths(d, n);
    AddMonthsCount(r, -n);
    var s := AddMonths(r, -n);
    assert s.year * 12 + s.month == d.year * 12 + d.month;
    assert s.month == d.month && s.year == d.year;
  }

  lemma {:induction false} AddYearsInverse(d: Date, n: int)
    requires d.day <= 28
    ensures AddYears(AddYears(d, n), -n) == d
  {
  }

  /** moment's `month(i)` setter: month `i` (0-based) of the same year, the day
      clamped to that month's length. */
  function SetMonth(d: Date, i: int): (r: Date)
    requires 0 <= i < 12
    ensures r.year == d.year && r.month == i + 1
    ensures d.day <= DaysInMonth(d.year, i + 1) ==> r.day == d.day
    ensures d.day > DaysInMonth(d.year, i + 1) ==> r.day == DaysInMonth(d.year, i + 1)
  {
    YMD(d.year, i + 1, Min(d.day, DaysInMonth(d.year, i + 1)))
  }
}
