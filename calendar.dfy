/**
 * Proleptic Gregorian calendar arithmetic, standing in for Python's
 * `datetime.date`, `datetime.timedelta` and `calendar.monthrange`.
 * Day numbers follow `date.toordinal()` (0001-01-01 is day 1) and weekdays
 * follow `date.weekday()` (Monday is 0, Sunday is 6).
 */
module Calendar {

  /** A naive timestamp to the minute; seconds are always zero. Not necessarily a real date. */
  datatype DateTime = DateTime(year: int, month: int, day: int, hour: int, minute: int)

  predicate IsLeap(y: int) {
    y % 4 == 0 && (y % 100 != 0 || y % 400 == 0)
  }

  /** `calendar.monthrange(y, m)[1]` */
  function DaysInMonth(y: int, m: int): (n: int)
    requires 1 <= m <= 12
    ensures 28 <= n <= 31
    ensures n == 28 <==> m == 2 && !IsLeap(y)
  {
    if m == 2 then (if IsLeap(y) then 29 else 28)
    else if m == 4 || m == 6 || m == 9 || m == 11 then 30
    else 31
  }

  /** The dates `datetime.date(y, m, d)` accepts (the year range 1..9999 is not modelled). */
  predicate ValidDate(y: int, m: int, d: int) {
    1 <= m <= 12 && 1 <= d <= DaysInMonth(y, m)
  }

  predicate ValidDateTime(t: DateTime) {
    ValidDate(t.year, t.month, t.day) && 0 <= t.hour < 24 && 0 <= t.minute < 60
  }

  function DaysBeforeYear(y: int): int {
    var p := y - 1;
    365 * p + p / 4 - p / 100 + p / 400
  }

  function DaysBeforeMonth(y: int, m: int): int
    requires 1 <= m <= 12
  {
    [0, 31, 59, 90, 120, 151, 181, 212, 243, 273, 304, 334][m - 1]
    + (if m > 2 && IsLeap(y) then 1 else 0)
  }

  /** `date(y, m, d).toordinal()` */
  function Ordinal(y: int, m: int, d: int): int
    requires 1 <= m <= 12
  {
    DaysBeforeYear(y) + DaysBeforeMonth(y, m) + d
  }

  /** `date(y, m, d).weekday()`: Monday is 0 and Sunday is 6. */
  function DayOfWeek(y: int, m: int, d: int): (w: int)
    requires 1 <= m <= 12
    ensures 0 <= w < 7
  {
    (Ordinal(y, m, d) + 6) % 7
  }

  function FirstOfNextMonth(t: DateTime): (r: DateTime)
    requires ValidDate(t.year, t.month, t.day)
    ensures ValidDate(r.year, r.month, r.day) && r.day == 1
    ensures r.hour == t.hour && r.minute == t.minute
  {
    if t.month == 12 then t.(year := t.year + 1, month := 1, day := 1)
    else t.(month := t.month + 1, day := 1)
  }

  function LastOfPreviousMonth(t: DateTime): (r: DateTime)
    requires ValidDate(t.year, t.month, t.day)
    ensures ValidDate(r.year, r.month, r.day) && r.day == DaysInMonth(r.year, r.month)
    ensures r.hour == t.hour && r.minute == t.minute
    ensures MonthBefore(r, t)
  {
    if t.month == 1 then t.(year := t.year - 1, month := 12, day := 31)
    else t.(month := t.month - 1, day := DaysInMonth(t.year, t.month - 1))
  }

  /** `t + timedelta(days=n)`, walking one month at a time; the time of day is kept. */
  function AddDays(t: DateTime, n: int): (r: DateTime)
    requires ValidDate(t.year, t.month, t.day)
    ensures ValidDate(r.year, r.month, r.day)
    ensures r.hour == t.hour && r.minute == t.minute
    decreases if n < 0 then -n else n
  {
    if 0 <= n && t.day + n <= DaysInMonth(t.year, t.month) then t.(day := t.day + n)
    else if n > 0 then AddDays(FirstOfNextMonth(t), n - (DaysInMonth(t.year, t.month) - t.day + 1))
    else if t.day + n >= 1 then t.(day := t.day + n)
    else AddDays(LastOfPreviousMonth(t), n + t.day)
  }

  /** `t + timedelta(hours=n)` */
  function AddHours(t: DateTime, n: int): (r: DateTime)
    requires ValidDate(t.year, t.month, t.day)
    ensures ValidDate(r.year, r.month, r.day) && 0 <= r.hour < 24 && r.minute == t.minute
  {
    var total := t.hour + n;
    AddDays(t.(hour := total % 24), total / 24)
  }

  /** `t + timedelta(minutes=n)` */
  function AddMinutes(t: DateTime, n: int): (r: DateTime)
    requires ValidDate(t.year, t.month, t.day)
    ensures ValidDate(r.year, r.month, r.day) && 0 <= r.hour < 24 && 0 <= r.minute < 60
  {
    var total := t.minute + n;
    AddHours(t.(minute := total % 60), total / 60)
  }

  /** Minutes elapsed since the start of day 0 of the ordinal count: a linear time scale. */
  function Minutes(t: DateTime): int
    requires 1 <= t.month <= 12
  {
    Ordinal(t.year, t.month, t.day) * 1440 + t.hour * 60 + t.minute
  }

  predicate SameDate(a: DateTime, b: DateTime) {
    a.year == b.year && a.month == b.month && a.day == b.day
  }

  /** `a` falls in an earlier month than `b`. */
  predicate MonthBefore(a: DateTime, b: DateTime) {
    a.year < b.year || (a.year == b.year && a.month < b.month)
  }

  /** `a` falls on an earlier date than `b`. */
  predicate DateBefore(a: DateTime, b: DateTime) {
    MonthBefore(a, b) || (a.year == b.year && a.month == b.month && a.day < b.day)
  }

  /** Strict chronological order on the five fields, compared most significant first. */
  predicate Before(a: DateTime, b: DateTime) {
    DateBefore(a, b) || (SameDate(a, b) && (a.hour < b.hour || (a.hour == b.hour && a.minute < b.minute)))
  }

  // ---------------------------------------------------------------------------
  // Day-number lemmas

  lemma DivStep(y: int, k: int)
    requires k == 4 || k == 100 || k == 400
    ensures y / k - (y - 1) / k == if y % k == 0 then 1 else 0
  {
    var q, r := y / k, y % k;
    assert y == k * q + r;
    if r == 0 {
      assert y - 1 == k * (q - 1) + (k - 1);
    } else {
      assert y - 1 == k * q + (r - 1);
    }
  }

  lemma LeapDivisibility(y: int)
    ensures y % 400 == 0 ==> y % 100 == 0
    ensures y % 100 == 0 ==> y % 4 == 0
  {
    if y % 400 == 0 {
      var q := y / 400;
      assert y == 100 * (4 * q);
    }
    if y % 100 == 0 {
      var q := y / 100;
      assert y == 4 * (25 * q);
    }
  }

  /** A year has 365 days, 366 in a leap year. */
  lemma YearLength(y: int)
    ensures DaysBeforeYear(y + 1) == DaysBeforeYear(y) + DaysBeforeMonth(y, 12) + 31
    ensures DaysBeforeYear(y + 1) == DaysBeforeYear(y) + (if IsLeap(y) then 366 else 365)
  {
    DivStep(y, 4);
    DivStep(y, 100);
    DivStep(y, 400);
    LeapDivisibility(y);
  }

  lemma MonthLength(y: int, m: int)
    requires 1 <= m < 12
    ensures DaysBeforeMonth(y, m + 1) == DaysBeforeMonth(y, m) + DaysInMonth(y, m)
  {
  }

  /** The first day of the next month follows the last day of this one. */
  lemma FirstOfNextMonthOrdinal(t: DateTime)
    requires ValidDate(t.year, t.month, t.day)
    ensures Ordinal(FirstOfNextMonth(t).year, FirstOfNextMonth(t).month, 1)
         == Ordinal(t.year, t.month, DaysInMonth(t.year, t.month)) + 1
  {
    if t.month == 12 {
      YearLength(t.year);
    } else {
      MonthLength(t.year, t.month);
    }
  }

  /** Adding n days moves the day number by exactly n. */
  lemma {:induction false} AddDaysOrdinal(t: DateTime, n: int)
    requires ValidDate(t.year, t.month, t.day)
    ensures var r := AddDays(t, n); Ordinal(r.year, r.month, r.day) == Ordinal(t.year, t.month, t.day) + n
    decreases if n < 0 then -n else n
  {
    if 0 <= n && t.day + n <= DaysInMonth(t.year, t.month) {
    } else if n > 0 {
      var f := FirstOfNextMonth(t);
      FirstOfNextMonthOrdinal(t);
      AddDaysOrdinal(f, n - (DaysInMonth(t.year, t.month) - t.day + 1));
    } else if t.day + n >= 1 {
    } else {
      var l := LastOfPreviousMonth(t);
      FirstOfNextMonthOrdinal(l);
      assert FirstOfNextMonth(l).year == t.year && FirstOfNextMonth(l).month == t.month;
      AddDaysOrdinal(l, n + t.day);
    }
  }

  /** Weekdays advance by one per day, modulo 7. */
  lemma AddDaysWeekday(t: DateTime, n: int)
    requires ValidDate(t.year, t.month, t.day)
    ensures var r := AddDays(t, n); DayOfWeek(r.year, r.month, r.day) == (DayOfWeek(t.year, t.month, t.day) + n) % 7
  {
    var o := Ordinal(t.year, t.month, t.day);
    AddDaysOrdinal(t, n);
    ModShift(o + 6, n);
  }

  /** Within one month, the weekday moves on by the difference of the day numbers, modulo 7. */
  lemma DayOfWeekInMonth(y: int, m: int, d1: int, d2: int)
    requires 1 <= m <= 12
    ensures DayOfWeek(y, m, d2) == (DayOfWeek(y, m, d1) + (d2 - d1)) % 7
  {
    ModShift(Ordinal(y, m, d1) + 6, d2 - d1);
  }

  lemma ModShift(a: int, n: int)
    ensures (a + n) % 7 == (a % 7 + n) % 7
  {
    var q := a / 7;
    assert a == 7 * q + a % 7;
    assert a + n == 7 * q + (a % 7 + n);
  }

  lemma {:induction false} DaysBeforeYearIncreasing(y1: int, y2: int)
    requires y1 < y2
    ensures DaysBeforeYear(y1) + 365 <= DaysBeforeYear(y2)
    decreases y2 - y1
  {
    YearLength(y1);
    if y1 + 1 < y2 {
      DaysBeforeYearIncreasing(y1 + 1, y2);
    }
  }

  /** The day number of a real date lies within its year's. */
  lemma OrdinalWithinYear(y: int, m: int, d: int)
    requires ValidDate(y, m, d)
    ensures DaysBeforeYear(y) < Ordinal(y, m, d) <= DaysBeforeYear(y + 1)
  {
    YearLength(y);
  }

  lemma DaysBeforeMonthIncreasing(y: int, m1: int, m2: int)
    requires 1 <= m1 < m2 <= 12
    ensures DaysBeforeMonth(y, m1) + DaysInMonth(y, m1) <= DaysBeforeMonth(y, m2)
  {
  }

  /** On real dates, the day number is strictly increasing in calendar order. */
  lemma OrdinalIncreasing(a: DateTime, b: DateTime)
    requires ValidDate(a.year, a.month, a.day) && ValidDate(b.year, b.month, b.day)
    requires DateBefore(a, b)
    ensures Ordinal(a.year, a.month, a.day) < Ordinal(b.year, b.month, b.day)
  {
    if a.year < b.year {
      OrdinalWithinYear(a.year, a.month, a.day);
      OrdinalWithinYear(b.year, b.month, b.day);
      if a.year + 1 < b.year {
        DaysBeforeYearIncreasing(a.year + 1, b.year);
      }
    } else if a.month < b.month {
      DaysBeforeMonthIncreasing(a.year, a.month, b.month);
    }
  }

  /** Two real dates with the same day number are the same date. */
  lemma OrdinalInjective(a: DateTime, b: DateTime)
    requires ValidDate(a.year, a.month, a.day) && ValidDate(b.year, b.month, b.day)
    requires Ordinal(a.year, a.month, a.day) == Ordinal(b.year, b.month, b.day)
    ensures SameDate(a, b)
  {
    if DateBefore(a, b) {
      OrdinalIncreasing(a, b);
    } else if DateBefore(b, a) {
      OrdinalIncreasing(b, a);
    }
  }

  /** Subtracting the difference of two dates from the first lands on the second. */
  lemma AddDaysToDate(t: DateTime, u: DateTime)
    requires ValidDate(t.year, t.month, t.day) && ValidDate(u.year, u.month, u.day)
    ensures AddDays(t, Ordinal(u.year, u.month, u.day) - Ordinal(t.year, t.month, t.day))
         == t.(year := u.year, month := u.month, day := u.day)
  {
    AddDaysLands(t, Ordinal(u.year, u.month, u.day) - Ordinal(t.year, t.month, t.day), u);
  }

  /** Moving by the days that separate two day numbers lands on the date with the second one. */
  lemma AddDaysLands(t: DateTime, k: int, u: DateTime)
    requires ValidDate(t.year, t.month, t.day) && ValidDate(u.year, u.month, u.day)
    requires Ordinal(t.year, t.month, t.day) + k == Ordinal(u.year, u.month, u.day)
    ensures AddDays(t, k) == t.(year := u.year, month := u.month, day := u.day)
  {
    AddDaysOrdinal(t, k);
    SameOrdinalSameDate(AddDays(t, k), u, t);
  }

  /** A date with `u`'s day number and `t`'s time of day is `t` moved to `u`'s date. */
  lemma SameOrdinalSameDate(r: DateTime, u: DateTime, t: DateTime)
    requires ValidDate(r.year, r.month, r.day) && ValidDate(u.year, u.month, u.day)
    requires Ordinal(r.year, r.month, r.day) == Ordinal(u.year, u.month, u.day)
    requires r.hour == t.hour && r.minute == t.minute
    ensures r == t.(year := u.year, month := u.month, day := u.day)
  {
    OrdinalInjective(r, u);
  }

  /** Moving a minute within its hour (as `base -= timedelta(minutes=base.minute - p)`). */
  lemma AddMinutesWithinHour(t: DateTime, p: int)
    requires ValidDateTime(t) && 0 <= p < 60
    ensures AddMinutes(t, p - t.minute) == t.(minute := p)
  {
  }

  /** Moving an hour within its day (as `base -= timedelta(hours=base.hour - p)`). */
  lemma AddHoursWithinDay(t: DateTime, p: int)
    requires ValidDateTime(t) && 0 <= p < 24
    ensures AddHours(t, p - t.hour) == t.(hour := p)
  {
  }

  /** On real timestamps the field-by-field order is the order of the minute count. */
  lemma BeforeIsEarlier(a: DateTime, b: DateTime)
    requires ValidDateTime(a) && ValidDateTime(b)
    ensures Before(a, b) <==> Minutes(a) < Minutes(b)
  {
    if DateBefore(a, b) {
      OrdinalIncreasing(a, b);
    } else if DateBefore(b, a) {
      OrdinalIncreasing(b, a);
    }
  }

  /** A short step forward stays in the month exactly when the month has room for it. */
  lemma AddDaysShort(t: DateTime, n: int)
    requires ValidDate(t.year, t.month, t.day) && 0 <= n < 28
    ensures t.day + n <= DaysInMonth(t.year, t.month) ==> AddDays(t, n) == t.(day := t.day + n)
    ensures t.day + n > DaysInMonth(t.year, t.month) ==> AddDays(t, n).month != t.month
  {
    if t.day + n > DaysInMonth(t.year, t.month) {
      var f := FirstOfNextMonth(t);
      var k := n - (DaysInMonth(t.year, t.month) - t.day + 1);
      assert AddDays(t, n) == AddDays(f, k);
      assert AddDays(f, k) == f.(day := 1 + k);
    }
  }

  /** `t + timedelta(minutes=n)` lies exactly `n` minutes on along the linear time scale. */
  lemma AddMinutesMinutes(t: DateTime, n: int)
    requires ValidDate(t.year, t.month, t.day)
    ensures Minutes(AddMinutes(t, n)) == Minutes(t) + n
  {
    var total := t.minute + n;
    var total2 := t.hour + total / 60;
    var t2 := t.(minute := total % 60, hour := total2 % 24);
    var d := total2 / 24;
    assert AddMinutes(t, n) == AddDays(t2, d);
    AddDaysOrdinal(t2, d);
    var ord := Ordinal(t.year, t.month, t.day);
    assert Minutes(AddMinutes(t, n)) == (ord + d) * 1440 + (total2 % 24) * 60 + total % 60;
    assert (ord + d) * 1440 == ord * 1440 + (d * 24) * 60;
    assert (d * 24) * 60 + (total2 % 24) * 60 == total2 * 60;
    assert total2 * 60 + total % 60 == t.hour * 60 + total;
  }

  /** One day back is the previous day of the month, or the last day of the previous month. */
  lemma AddDaysBackOne(t: DateTime)
    requires ValidDate(t.year, t.month, t.day)
    ensures AddDays(t, -1) == if t.day > 1 then t.(day := t.day - 1) else LastOfPreviousMonth(t)
    ensures DateBefore(AddDays(t, -1), t)
  {
    if t.day == 1 {
      assert AddDays(t, -1) == AddDays(LastOfPreviousMonth(t), 0);
    }
  }

  /** A step back that stays in the month only lowers the day. */
  lemma AddDaysBackWithin(t: DateTime, n: int)
    requires ValidDate(t.year, t.month, t.day) && 0 <= n < t.day
    ensures AddDays(t, -n) == t.(day := t.day - n)
  {
  }

  /** A step back of under four weeks leaves the month exactly when it reaches day 0 or below. */
  lemma AddDaysBackMonth(t: DateTime, n: int)
    requires ValidDate(t.year, t.month, t.day) && 0 <= n <= 27
    ensures AddDays(t, -n).month == t.month <==> n < t.day
  {
    if n < t.day {
      AddDaysBackWithin(t, n);
    } else {
      var u := LastOfPreviousMonth(t);
      assert AddDays(t, -n) == AddDays(u, t.day - n);
      AddDaysBackWithin(u, n - t.day);
    }
  }

  /** Going back by the day of the month lands on the last day of the previous month. */
  lemma AddDaysBackToEnd(t: DateTime)
    requires ValidDate(t.year, t.month, t.day)
    ensures AddDays(t, -t.day) == LastOfPreviousMonth(t)
  {
    assert AddDays(t, -t.day) == AddDays(LastOfPreviousMonth(t), 0);
  }

  /** On real dates, calendar order is the order of the day numbers. */
  lemma OrdinalOrder(a: DateTime, b: DateTime)
    requires ValidDate(a.year, a.month, a.day) && ValidDate(b.year, b.month, b.day)
    ensures DateBefore(a, b) <==> Ordinal(a.year, a.month, a.day) < Ordinal(b.year, b.month, b.day)
  {
    if DateBefore(a, b) {
      OrdinalIncreasing(a, b);
    } else if DateBefore(b, a) {
      OrdinalIncreasing(b, a);
    }
  }

  /** Going back one day or more lands on an earlier date. */
  lemma AddDaysBackEarlier(t: DateTime, k: int)
    requires ValidDate(t.year, t.month, t.day) && k >= 1
    ensures DateBefore(AddDays(t, -k), t)
  {
    AddDaysOrdinal(t, -k);
    OrdinalOrder(AddDays(t, -k), t);
  }

  /** A move that keeps the day number inside the month only changes the day. */
  lemma AddDaysWithin(t: DateTime, k: int)
    requires ValidDate(t.year, t.month, t.day) && 1 <= t.day - k <= DaysInMonth(t.year, t.month)
    ensures AddDays(t, -k) == t.(day := t.day - k)
  {
  }

  /** Going back past day 1 to day `d` of the previous month. */
  lemma AddDaysBackAcross(t: DateTime, d: int)
    requires ValidDate(t.year, t.month, t.day) && 1 <= d <= LastOfPreviousMonth(t).day
    ensures AddDays(t, -(LastOfPreviousMonth(t).day - d + t.day)) == LastOfPreviousMonth(t).(day := d)
  {
    var l := LastOfPreviousMonth(t);
    assert AddDays(t, -(l.day - d + t.day)) == AddDays(l, d - l.day);
    AddDaysWithin(l, l.day - d);
  }

  /** Weekdays of the dates the example lemmas use (2024-01-01 was a Monday). */
  lemma Weekdays2024()
    ensures DayOfWeek(2024, 1, 7) == 6 && DayOfWeek(2024, 1, 8) == 0
    ensures DayOfWeek(2024, 3, 1) == 4 && DayOfWeek(2024, 4, 1) == 0
    ensures DayOfWeek(2024, 4, 30) == 1 && DayOfWeek(2024, 5, 1) == 2
  {
    assert DaysBeforeYear(2024) == 738885;
    assert IsLeap(2024);
    assert DaysBeforeMonth(2024, 3) == 60 && DaysBeforeMonth(2024, 4) == 91 && DaysBeforeMonth(2024, 5) == 121;
    assert Ordinal(2024, 1, 7) == 738892 && Ordinal(2024, 1, 8) == 738893;
    assert Ordinal(2024, 3, 1) == 738946 && Ordinal(2024, 4, 1) == 738977;
    assert Ordinal(2024, 4, 30) == 739006 && Ordinal(2024, 5, 1) == 739007;
  }
}
