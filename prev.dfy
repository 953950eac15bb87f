/**
 * The backward walk `prev_run`: starting from `next_run(time)`, step the
 * minute back to the previous listed minute; when that wraps around, step
 * the hour back; when that wraps around too, step the day (and, when needed,
 * the month) back. Each stage uses `__prev_time` on its field list and
 * subtracts the difference as a `timedelta`, exactly as the source does,
 * including the places where the arithmetic does not land where a crontab
 * reader would expect (see the example lemmas at the end).
 */
module CronPrev {
  import opened Wrappers
  import opened Calendar
  import opened CronFields
  import opened CronSearch
  import opened CronNext

  /** Days to subtract from `base`, and whether the month must still move back (`day_diff`, `carry`). */
  datatype Borrow = Borrow(days: int, carry: bool)

  /**
   * How many single days the search of cron.py:419-428 may step back. The
   * source loops without bound; with a non-empty day list it always stops
   * within two months.
   */
  const SeekBound: nat := 400

  /** cron.py:419-428: step back one day at a time until the day of month is listed. */
  function SeekListedDay(days: seq<int>, t: DateTime, bound: nat): (r: Result<DateTime, Fault>)
    requires ValidDateTime(t)
    ensures r.Ok? ==> ValidDateTime(r.value) && r.value.day in days
    ensures r.Ok? ==> r.value.hour == t.hour && r.value.minute == t.minute
    ensures r.Ok? ==> !DateBefore(t, r.value)
    ensures t.day in days ==> r == Ok(t)
    ensures r.Err? ==> r.error == SearchLimit
    decreases bound
  {
    if t.day in days then Ok(t)
    else if bound == 0 then Err(SearchLimit)
    else
      AddDaysBackOne(t);
      SeekListedDay(days, AddDays(t, -1), bound - 1)
  }

  /** A search that reaches day `d` of the same month succeeds if the search from there does. */
  lemma {:induction false} SeekDownTo(days: seq<int>, t: DateTime, bound: nat, d: int)
    requires ValidDateTime(t) && 1 <= d <= t.day && t.day - d <= bound
    ensures SeekListedDay(days, t.(day := d), bound - (t.day - d)).Ok? ==> SeekListedDay(days, t, bound).Ok?
    decreases t.day - d
  {
    if t.day > d && t.day !in days {
      AddDaysBackOne(t);
      SeekDownTo(days, t.(day := t.day - 1), bound - 1, d);
    }
  }

  /** A search that passes day 1 continues from the last day of the previous month. */
  lemma SeekAcross(days: seq<int>, t: DateTime, bound: nat)
    requires ValidDateTime(t) && t.day <= bound
    ensures SeekListedDay(days, LastOfPreviousMonth(t), bound - t.day).Ok? ==> SeekListedDay(days, t, bound).Ok?
  {
    SeekDownTo(days, t, bound, 1);
    var t1 := t.(day := 1);
    if 1 !in days {
      AddDaysBackOne(t1);
      assert LastOfPreviousMonth(t1) == LastOfPreviousMonth(t);
    }
  }

  /** A month of fewer than 31 days follows one of 31 days. */
  lemma ShortMonthFollowsLong(t: DateTime)
    requires ValidDate(t.year, t.month, t.day) && DaysInMonth(t.year, t.month) < 31
    ensures LastOfPreviousMonth(t).day == 31
  {
  }

  /**
   * With a day of month listed, the day search of cron.py:419-428 always
   * stops: a listed day `d` comes back within the current month, the month
   * before, or the month before that (a month too short for `d` follows one
   * of 31 days), so at most 93 steps back.
   */
  lemma SeekListedDayFinds(days: seq<int>, t: DateTime, d: int)
    requires ValidDateTime(t) && d in days && 1 <= d <= 31
    ensures SeekListedDay(days, t, SeekBound).Ok?
  {
    if d <= t.day {
      SeekDownTo(days, t, SeekBound, d);
    } else {
      SeekAcross(days, t, SeekBound);
      SeekFromMonthEnd(days, LastOfPreviousMonth(t), SeekBound - t.day, d);
    }
  }

  /** From the last day of a month, a listed day `d` is at most two months back. */
  lemma SeekFromMonthEnd(days: seq<int>, l: DateTime, bound: nat, d: int)
    requires ValidDateTime(l) && l.day == DaysInMonth(l.year, l.month)
    requires d in days && 1 <= d <= 31 && l.day + 31 <= bound
    ensures SeekListedDay(days, l, bound).Ok?
  {
    if d <= l.day {
      SeekDownTo(days, l, bound, d);
    } else {
      SeekAcross(days, l, bound);
      ShortMonthFollowsLong(l);
      SeekDownTo(days, LastOfPreviousMonth(l), bound - l.day, d);
    }
  }


  /**
   * cron.py:433-446: the days back to the listed day `pd` (from
   * `__prev_time` on the days); when it borrowed, it lies in the previous
   * month, whose length `monthrange` gives. In January the borrow is
   * dropped.
   */
  function DayBorrow(base: DateTime, pd: Pick): Borrow
    requires ValidDateTime(base)
  {
    if pd.carry then
      if base.month == 1 then Borrow(31 - pd.value + base.day, false)
      else Borrow(DaysInMonth(base.year, base.month - 1) - pd.value + base.day, true)
    else Borrow(base.day - pd.value, false)
  }

  /**
   * The count `DayBorrow` gives lands on the listed day: on day `pd` of the
   * month of `base`, or, after a borrow, on day `pd` of the month before
   * (December of the year before, for January, whose borrow is dropped).
   */
  lemma DayBorrowLands(base: DateTime, pd: Pick)
    requires ValidDateTime(base)
    ensures DayBorrow(base, pd).carry <==> pd.carry && base.month != 1
    ensures !pd.carry && 1 <= pd.value <= base.day ==>
              AddDays(base, -DayBorrow(base, pd).days) == base.(day := pd.value)
    ensures pd.carry && 1 <= pd.value <= LastOfPreviousMonth(base).day ==>
              AddDays(base, -DayBorrow(base, pd).days) == LastOfPreviousMonth(base).(day := pd.value)
  {
    if !pd.carry && 1 <= pd.value <= base.day {
      AddDaysWithin(base, base.day - pd.value);
    } else if pd.carry && 1 <= pd.value <= LastOfPreviousMonth(base).day {
      AddDaysBackAcross(base, pd.value);
    }
  }

  /**
   * cron.py:453-498: the weekday rule. `pw` is `__prev_time` on the weekdays
   * for `base.weekday() + 1`, `db` the day-of-month borrow and `carry` the
   * carry flag as it stands (kept unchanged in one branch, line 483).
   */
  function WeekdayRule(S: Schedule, base: DateTime, db: Borrow, pw: Pick, carry: bool): Borrow
    requires ValidDateTime(base) && 0 <= pw.value <= 7
  {
    var bw := DayOfWeek(base.year, base.month, base.day);
    var pwd := CronDow(pw.value);
    if |S.days| == 31 && |S.weekdays| != 8 then
      if pw.carry then
        var dd := 7 + bw - pwd;
        // `dd` is 1 to 13 days, so `base - dd days` is in another month exactly when it passes day 1
        assert (base.month != AddDays(base, -dd).month) == (dd >= base.day) by { AddDaysBackMonth(base, dd); }
        Borrow(dd, dd >= base.day)
      else
        Borrow(if db.days >= bw - pwd then db.days else bw - pwd, false)
    else if |S.weekdays| != 8 then
      var wd := bw - pwd;
      if pw.carry then
        if db.carry then Borrow(if db.days >= wd + 7 then db.days else wd + 7, true)
        else Borrow(db.days, carry)
      else if db.carry then
        // the source assigns the weekday distance to `prev_day`, which is not read again
        Borrow(db.days, false)
      else
        Borrow(if db.days <= wd then db.days else wd, false)
    else
      Borrow(db.days, db.carry)
  }
  /**
   * What the weekday rule does in each mode: with every weekday listed it
   * keeps the day count and carry; with every day listed and a weekday
   * borrow it steps back 1 to 13 days and carries exactly when that passes
   * day 1; with every day listed and no weekday borrow it takes the longer
   * count and never carries; with both lists partial and only the day
   * borrowing, it keeps the day count but drops the carry (line 492 assigns
   * the weekday distance to `prev_day`, which is never read).
   */
  lemma WeekdayRuleCases(S: Schedule, base: DateTime, db: Borrow, pw: Pick, carry: bool)
    requires ValidDateTime(base) && 0 <= pw.value <= 7
    ensures DayOnly(S) ==> WeekdayRule(S, base, db, pw, carry) == db
    ensures WeekdayOnly(S) && pw.carry ==>
              var r := WeekdayRule(S, base, db, pw, carry);
              1 <= r.days <= 13 && (r.carry <==> r.days >= base.day)
    ensures WeekdayOnly(S) && !pw.carry ==>
              !WeekdayRule(S, base, db, pw, carry).carry && WeekdayRule(S, base, db, pw, carry).days >= db.days
    ensures !WeekdayOnly(S) && !DayOnly(S) && !pw.carry && db.carry ==>
              WeekdayRule(S, base, db, pw, carry) == Borrow(db.days, false)
  {
  }


  /** The weekday answer the walk uses for `base`: `__prev_time` on the weekdays for `base.weekday() + 1`. */
  function WeekdayPick(S: Schedule, base: DateTime): Pick
    requires ValidDateTime(base) && DayOfWeek(base.year, base.month, base.day) + 1 in S.weekdays
  {
    PrevTime(S.weekdays, DayOfWeek(base.year, base.month, base.day) + 1).value
  }
  /**
   * `__prev_time` on the weekdays for `base.weekday() + 1`: a listed
   * weekday; without a borrow it is the greatest one below, with a borrow
   * the last one listed.
   */
  lemma WeekdayPickListed(S: Schedule, base: DateTime)
    requires WellFormed(S) && ValidDateTime(base) && DayOfWeek(base.year, base.month, base.day) + 1 in S.weekdays
    ensures WeekdayPick(S, base).value in S.weekdays
    ensures !WeekdayPick(S, base).carry ==>
              var v := DayOfWeek(base.year, base.month, base.day) + 1;
              WeekdayPick(S, base).value < v && forall x :: x in S.weekdays && x < v ==> x <= WeekdayPick(S, base).value
    ensures WeekdayPick(S, base).carry ==> WeekdayPick(S, base).value == S.weekdays[|S.weekdays| - 1]
  {
  }


  /** `tmp_base` after the day search, and the day count and carry the day stage settles on. */
  datatype Stage = Stage(tmp: DateTime, step: Borrow)

  /**
   * The day stage of cron.py:419-498: search back from `tmp` for a listed
   * day, take the day-of-month borrow, then apply the weekday rule. An
   * unlisted weekday of `base` (under Monday 1 ... Sunday 7) fails, since
   * the `__prev_time` call of line 450 is not guarded.
   */
  function DayStage(S: Schedule, base: DateTime, tmp: DateTime, carry: bool): (r: Result<Stage, Fault>)
    requires WellFormed(S) && ValidDateTime(base) && ValidDateTime(tmp)
    ensures r.Ok? ==> ValidDateTime(r.value.tmp) && r.value.tmp.hour == tmp.hour && r.value.tmp.minute == tmp.minute
    ensures r.Ok? ==> r.value.tmp.day in S.days && !DateBefore(tmp, r.value.tmp)
    ensures DayOfWeek(base.year, base.month, base.day) + 1 !in S.weekdays ==> r.Err?
    ensures tmp.day in S.days && DayOfWeek(base.year, base.month, base.day) + 1 in S.weekdays ==>
              r == Ok(Stage(tmp, WeekdayRule(S, base, DayBorrow(base, PrevTime(S.days, tmp.day).value), WeekdayPick(S, base), carry)))
    ensures SeekListedDay(S.days, tmp, SeekBound).Err? ==> r == Err(SearchLimit)
    ensures SeekListedDay(S.days, tmp, SeekBound).Ok? && PrevTime(S.weekdays, DayOfWeek(base.year, base.month, base.day) + 1).Err? ==>
              r == Err(NotInList)
    ensures var seek := SeekListedDay(S.days, tmp, SeekBound);
            var pw := PrevTime(S.weekdays, DayOfWeek(base.year, base.month, base.day) + 1);
            seek.Ok? && pw.Ok? ==>
              r == Ok(Stage(seek.value, WeekdayRule(S, base, DayBorrow(base, PrevTime(S.days, seek.value.day).value), pw.value, carry)))
  {
    var t1 :- SeekListedDay(S.days, tmp, SeekBound);
    // the search stops on a listed day, so `__prev_time` finds it
    var pd := PrevTime(S.days, t1.day).value;
    var db := DayBorrow(base, pd);
    var pw :- PrevTime(S.weekdays, DayOfWeek(base.year, base.month, base.day) + 1);
    Ok(Stage(t1, WeekdayRule(S, base, db, pw, carry)))
  }

  /** How the month stage of cron.py:508-526 ends: with a timestamp, or raising with this carry. */
  datatype MonthMove = Moved(t: DateTime) | Retry(carry: bool)

  /**
   * The month stage on its first pass: the month before `tmp`'s (in the
   * previous year when `__prev_time` borrowed), on `b`'s day of month. The
   * `ValueError`s it can raise (month not listed, no such date) become a
   * retry; `carry` is the flag before the stage.
   */
  function MonthStage(S: Schedule, b: DateTime, tmp: DateTime, carry: bool): (r: MonthMove)
    requires ValidDateTime(b)
    ensures r.Moved? ==> ValidDateTime(r.t) && r.t.day == b.day && r.t.hour == b.hour && r.t.minute == b.minute
    ensures r.Moved? ==> r.t.month in S.months && (r.t.year == b.year || r.t.year == b.year - 1)
    ensures tmp.month !in S.months ==> r == Retry(carry)
  {
    match PrevTime(S.months, tmp.month)
    case Err(_) => Retry(carry)
    case Ok(pm) =>
      var y := if pm.carry then b.year - 1 else b.year;
      if ValidDate(y, pm.value, b.day) then
        // `base - (date(base) - date(y, p, base.day))` moves to that date and keeps the time
        var moved := b.(year := y, month := pm.value);
        assert moved == AddDays(b, Ordinal(y, pm.value, b.day) - Ordinal(b.year, b.month, b.day)) by {
          AddDaysToDate(b, moved);
        }
        Moved(moved)
      else
        Retry(pm.carry)
  }

  /**
   * One pass of the outer `while True` loop of cron.py:418-530. `base` is
   * the timestamp being moved back, `tmp` is `tmp_base`, `previousMonths`
   * and `carry` are the flags of the same names.
   */
  function DayMonthWalk(S: Schedule, base: DateTime, tmp: DateTime, previousMonths: bool, carry: bool): (r: Result<DateTime, Fault>)
    requires WellFormed(S) && ValidDateTime(base) && ValidDateTime(tmp)
    requires tmp.hour == base.hour && tmp.minute == base.minute
    ensures r.Ok? ==> ValidDateTime(r.value) && r.value.hour == base.hour && r.value.minute == base.minute
    decreases if previousMonths then 0 else 1, 1
  {
    var st :- DayStage(S, base, tmp, carry);
    AfterDayStage(S, base, st, previousMonths)
  }

  /**
   * The rest of the pass once the day stage settled on `st`: without a
   * carry, move `base` back by the day count; with one, on the second pass
   * return `tmp_base`, and on the first run the month stage. A month stage
   * that raises moves `tmp_base` to the last day of its previous month and
   * runs the pass again, which always ends.
   */
  function AfterDayStage(S: Schedule, base: DateTime, st: Stage, previousMonths: bool): (r: Result<DateTime, Fault>)
    requires WellFormed(S) && ValidDateTime(base) && ValidDateTime(st.tmp)
    requires st.tmp.hour == base.hour && st.tmp.minute == base.minute
    ensures r.Ok? ==> ValidDateTime(r.value) && r.value.hour == base.hour && r.value.minute == base.minute
    ensures !st.step.carry ==> r == Ok(AddDays(base, -st.step.days))
    ensures st.step.carry && previousMonths ==> r == Ok(st.tmp)
    ensures var m := MonthStage(S, AddDays(base, -st.step.days), st.tmp, st.step.carry);
            st.step.carry && !previousMonths && m.Moved? ==> r == Ok(m.t)
    ensures var b := AddDays(base, -st.step.days);
            var m := MonthStage(S, b, st.tmp, st.step.carry);
            st.step.carry && !previousMonths && m.Retry? ==> r == DayMonthWalk(S, b, LastOfPreviousMonth(st.tmp), true, m.carry)
    decreases if previousMonths then 0 else 1, 0
  {
    var b := AddDays(base, -st.step.days);
    if !st.step.carry then Ok(b)
    else if previousMonths then Ok(st.tmp)
    else
      match MonthStage(S, b, st.tmp, st.step.carry)
      case Moved(t) => Ok(t)
      case Retry(c) =>
        // `tmp_base - timedelta(days=tmp_base.day)`
        assert AddDays(st.tmp, -st.tmp.day) == LastOfPreviousMonth(st.tmp) by { AddDaysBackToEnd(st.tmp); }
        DayMonthWalk(S, b, LastOfPreviousMonth(st.tmp), true, c)
  }

  /**
   * `prev_run` after its first line, from `base` (= `next_run(time)`): the
   * minute stage (cron.py:402-407), the hour stage (410-414) and the
   * day/month walk.
   */
  function PrevRunFrom(S: Schedule, base: DateTime): (r: Result<DateTime, Fault>)
    requires WellFormed(S) && ValidDateTime(base)
    ensures r.Ok? ==> ValidDateTime(r.value) && r.value.minute in S.minutes
    ensures r.Ok? && base.hour in S.hours ==> r.value.hour in S.hours
    ensures base.minute !in S.minutes ==> r == Err(NotInList)
  {
    var pm :- PrevTime(S.minutes, base.minute);
    // `base - timedelta(minutes=base.minute - p)` with 0 <= p < 60 only sets the minute
    var b1 := base.(minute := pm.value);
    assert b1 == AddMinutes(base, -(base.minute - pm.value)) by { AddMinutesWithinHour(base, pm.value); }
    if !pm.carry then Ok(b1)
    else
      var ph :- PrevTime(S.hours, b1.hour);
      // likewise `base - timedelta(hours=base.hour - p)` with 0 <= p < 24 only sets the hour
      var b2 := b1.(hour := ph.value);
      assert b2 == AddHours(b1, -(b1.hour - ph.value)) by { AddHoursWithinDay(b1, ph.value); }
      if !ph.carry then Ok(b2)
      else DayMonthWalk(S, b2, b2, false, true)
  }

  /** `prev_run(time)`: the backward walk from `next_run(time)`. */
  function PrevRun(S: Schedule, t: DateTime): (r: Result<DateTime, Fault>)
    requires WellFormed(S) && ValidDateTime(t)
    ensures r.Ok? ==> ValidDateTime(r.value) && r.value.minute in S.minutes && r.value.hour in S.hours
    ensures NextRun(S, t).Err? ==> r == Err(NextRun(S, t).error)
  {
    var base :- NextRun(S, t);
    PrevRunFrom(S, base)
  }

  // ---------------------------------------------------------------------------
  // The stages that do what the name promises

  /**
   * When a listed minute lies below `base.minute` in the same hour, the
   * previous run is the latest such minute, everything else unchanged.
   */
  lemma PrevRunMinuteStep(S: Schedule, base: DateTime)
    requires WellFormed(S) && ValidDateTime(base) && base.minute in S.minutes
    requires exists m :: m in S.minutes && m < base.minute
    ensures PrevRunFrom(S, base).Ok?
    ensures var r := PrevRunFrom(S, base).value;
            r == base.(minute := r.minute) && r.minute in S.minutes && r.minute < base.minute
            && (forall m :: m in S.minutes && m < base.minute ==> m <= r.minute)
            && Before(r, base)
  {
    var pm := PrevTime(S.minutes, base.minute).value;
    assert !pm.carry;
    AddMinutesWithinHour(base, pm.value);
    assert PrevRunFrom(S, base) == Ok(base.(minute := pm.value));
  }

  /**
   * When `base.minute` is the first listed minute and a listed hour lies
   * below `base.hour`, the previous run is at the latest such hour and the
   * last listed minute, on the same date.
   */
  lemma PrevRunHourStep(S: Schedule, base: DateTime)
    requires WellFormed(S) && ValidDateTime(base) && base.minute in S.minutes && base.hour in S.hours
    requires forall m :: m in S.minutes ==> base.minute <= m
    requires exists h :: h in S.hours && h < base.hour
    ensures PrevRunFrom(S, base).Ok?
    ensures var r := PrevRunFrom(S, base).value;
            r == base.(hour := r.hour, minute := r.minute)
            && r.minute == S.minutes[|S.minutes| - 1] && (forall m :: m in S.minutes ==> m <= r.minute)
            && r.hour in S.hours && r.hour < base.hour
            && (forall h :: h in S.hours && h < base.hour ==> h <= r.hour)
            && Before(r, base)
  {
    var pm := PrevTime(S.minutes, base.minute).value;
    assert pm.carry;
    AddMinutesWithinHour(base, pm.value);
    var b1 := base.(minute := pm.value);
    var ph := PrevTime(S.hours, b1.hour).value;
    assert !ph.carry;
    AddHoursWithinDay(b1, ph.value);
    assert PrevRunFrom(S, base) == Ok(b1.(hour := ph.value));
  }

  /**
   * When both the minute and the hour borrow (`base` is at the first listed
   * minute and hour), the walk goes on from the last listed hour and minute
   * of the same date.
   */
  lemma MinuteHourWrap(S: Schedule, base: DateTime)
    requires WellFormed(S) && ValidDateTime(base) && base.minute in S.minutes && base.hour in S.hours
    requires forall m :: m in S.minutes ==> base.minute <= m
    requires forall h :: h in S.hours ==> base.hour <= h
    ensures var b2 := base.(hour := S.hours[|S.hours| - 1], minute := S.minutes[|S.minutes| - 1]);
            ValidDateTime(b2) && PrevRunFrom(S, base) == DayMonthWalk(S, b2, b2, false, true)
  {
    var pm := PrevTime(S.minutes, base.minute).value;
    assert pm.carry && pm.value == S.minutes[|S.minutes| - 1];
    AddMinutesWithinHour(base, pm.value);
    var b1 := base.(minute := pm.value);
    assert AddMinutes(base, -(base.minute - pm.value)) == b1;
    var ph := PrevTime(S.hours, b1.hour).value;
    assert ph.carry && ph.value == S.hours[|S.hours| - 1];
    AddHoursWithinDay(b1, ph.value);
    var b2 := b1.(hour := ph.value);
    assert AddHours(b1, -(b1.hour - ph.value)) == b2;
  }

  /** A listed month before `tmp`'s that has `b`'s day number is where the month stage moves `b`. */
  lemma MonthStageMoves(S: Schedule, b: DateTime, tmp: DateTime, carry: bool)
    requires WellFormed(S) && ValidDateTime(b) && tmp.month in S.months
    requires var pm := PrevTime(S.months, tmp.month).value;
             ValidDate(if pm.carry then b.year - 1 else b.year, pm.value, b.day)
    ensures var pm := PrevTime(S.months, tmp.month).value;
            MonthStage(S, b, tmp, carry) == Moved(b.(year := if pm.carry then b.year - 1 else b.year, month := pm.value))
  {
    assert PrevTime(S.months, tmp.month).Ok?;
  }

  /**
   * When only the days of month decide, `base` is at the first listed hour
   * and minute, and a listed day lies below `base.day`, the previous run is
   * at the latest such day, at the last listed hour and minute.
   */
  lemma PrevRunDayStep(S: Schedule, base: DateTime)
    requires WellFormed(S) && ValidDateTime(base) && DayOnly(S)
    requires base.minute in S.minutes && base.hour in S.hours && base.day in S.days
    requires DayOfWeek(base.year, base.month, base.day) + 1 in S.weekdays
    requires forall m :: m in S.minutes ==> base.minute <= m
    requires forall h :: h in S.hours ==> base.hour <= h
    requires exists d :: d in S.days && d < base.day
    ensures PrevRunFrom(S, base).Ok?
    ensures var r := PrevRunFrom(S, base).value;
            r == base.(day := r.day, hour := r.hour, minute := r.minute)
            && r.minute == S.minutes[|S.minutes| - 1] && r.hour == S.hours[|S.hours| - 1]
            && r.day in S.days && r.day < base.day
            && (forall d :: d in S.days && d < base.day ==> d <= r.day)
            && Before(r, base)
  {
    MinuteHourWrap(S, base);
    var b2 := base.(hour := S.hours[|S.hours| - 1], minute := S.minutes[|S.minutes| - 1]);
    DayOnlyStage(S, b2);
    AddDaysBackWithin(b2, b2.day - PrevTime(S.days, b2.day).value.value);
  }

  /** The day stage of `PrevRunDayStep`: the borrow is the distance back to the latest listed day below `b.day`. */
  lemma DayOnlyStage(S: Schedule, b: DateTime)
    requires WellFormed(S) && ValidDateTime(b) && DayOnly(S) && b.day in S.days
    requires DayOfWeek(b.year, b.month, b.day) + 1 in S.weekdays
    requires exists d :: d in S.days && d < b.day
    ensures PrevTime(S.days, b.day).Ok? && !PrevTime(S.days, b.day).value.carry
    ensures DayStage(S, b, b, true) == Ok(Stage(b, Borrow(b.day - PrevTime(S.days, b.day).value.value, false)))
  {
    var pd := PrevTime(S.days, b.day).value;
    assert !pd.carry;
    assert WeekdayRule(S, b, DayBorrow(b, pd), WeekdayPick(S, b), true) == Borrow(b.day - pd.value, false);
  }

  // ---------------------------------------------------------------------------
  // With only the days of month deciding, the walk goes back in time

  /**
   * When every weekday is listed (only the days of month decide), the result
   * of `prev_run` lies strictly before the `next_run` it starts from.
   */
  lemma PrevRunEarlier(S: Schedule, t: DateTime)
    requires WellFormed(S) && ValidDateTime(t) && DayOnly(S) && PrevRun(S, t).Ok?
    ensures NextRun(S, t).Ok? && Before(PrevRun(S, t).value, NextRun(S, t).value)
  {
    var base := NextRun(S, t).value;
    PrevRunFromEarlier(S, base, PrevRun(S, t).value);
  }

  /** The walk from a run of a schedule decided by the days of month ends strictly before it. */
  lemma PrevRunFromEarlier(S: Schedule, base: DateTime, r: DateTime)
    requires WellFormed(S) && ValidDateTime(base) && DayOnly(S) && Scheduled(S, base)
    requires PrevRunFrom(S, base) == Ok(r)
    ensures Before(r, base)
  {
    if exists m :: m in S.minutes && m < base.minute {
      PrevRunMinuteStep(S, base);
    } else if exists h :: h in S.hours && h < base.hour {
      PrevRunHourStep(S, base);
    } else {
      MinuteHourWrap(S, base);
      var b2 := base.(hour := S.hours[|S.hours| - 1], minute := S.minutes[|S.minutes| - 1]);
      WalkEarlier(S, b2, r);
    }
  }

  /** With only the days of month deciding, the day stage takes the day-of-month borrow unchanged. */
  lemma DayOnlyStep(S: Schedule, base: DateTime, tmp: DateTime, carry: bool, st: Stage)
    requires WellFormed(S) && ValidDateTime(base) && ValidDateTime(tmp) && DayOnly(S)
    requires DayStage(S, base, tmp, carry) == Ok(st)
    ensures st.step == DayBorrow(base, PrevTime(S.days, st.tmp.day).value)
  {
    var seek := SeekListedDay(S.days, tmp, SeekBound);
    var pw := PrevTime(S.weekdays, DayOfWeek(base.year, base.month, base.day) + 1);
    assert seek.Ok? && pw.Ok?;
    assert st.tmp == seek.value;
  }

  /** The walk from a listed day of a listed month ends on an earlier date. */
  lemma WalkEarlier(S: Schedule, b: DateTime, r: DateTime)
    requires WellFormed(S) && ValidDateTime(b) && DayOnly(S) && b.day in S.days && b.month in S.months
    requires DayMonthWalk(S, b, b, false, true) == Ok(r)
    ensures DateBefore(r, b)
  {
    var st := DayStage(S, b, b, true).value;
    assert st.tmp == b;
    DayOnlyStep(S, b, b, true, st);
    var pd := PrevTime(S.days, b.day).value;
    if !st.step.carry {
      AddDaysBackEarlier(b, st.step.days);
    } else {
      FirstPassCarry(S, b, st, r);
    }
  }

  /**
   * The first pass borrowed into the previous month: `base` moves back to
   * the last listed day there (or to a day at the start of its own month
   * when that month is shorter), and the month stage moves it to an
   * earlier listed month or retries from the previous month.
   */
  lemma FirstPassCarry(S: Schedule, b: DateTime, st: Stage, r: DateTime)
    requires WellFormed(S) && ValidDateTime(b) && DayOnly(S) && b.day in S.days && b.month in S.months
    requires st.tmp == b && st.step.carry && st.step == DayBorrow(b, PrevTime(S.days, b.day).value)
    requires AfterDayStage(S, b, st, false) == Ok(r)
    ensures DateBefore(r, b)
  {
    var pd := PrevTime(S.days, b.day).value;
    var l := LastOfPreviousMonth(b);
    assert pd.carry && b.month != 1 && st.step.days == l.day - pd.value + b.day;
    var b1 := AddDays(b, -st.step.days);
    if pd.value <= l.day {
      AddDaysBackAcross(b, pd.value);
      assert b1 == l.(day := pd.value) && b1.year <= b.year;
      match MonthStage(S, b1, b, true)
      case Moved(t) =>
        MovedEarlier(S, b1, b, t);
      case Retry(c) =>
        RetryEarlier(S, b1, b, c, r);
    } else {
      AddDaysWithin(b, st.step.days);
      ShortBorrowMoves(S, b1, b);
      MovedEarlier(S, b1, b, r);
    }
  }

  /** When the borrow left `base` at day 1 to 3 of its own month, the month stage moves it. */
  lemma ShortBorrowMoves(S: Schedule, b1: DateTime, b: DateTime)
    requires WellFormed(S) && ValidDateTime(b1) && b1.day <= 3 && b.month in S.months
    ensures MonthStage(S, b1, b, true).Moved?
  {
    assert PrevTime(S.months, b.month).Ok?;
  }

  /** The month stage moves to an earlier listed month, or back a year when it borrowed. */
  lemma MovedEarlier(S: Schedule, b1: DateTime, b: DateTime, t: DateTime)
    requires WellFormed(S) && ValidDateTime(b1) && b1.year <= b.year && b.month in S.months
    requires MonthStage(S, b1, b, true) == Moved(t)
    ensures MonthBefore(t, b)
  {
    var pm := PrevTime(S.months, b.month).value;
    assert t.month == pm.value && t.year == if pm.carry then b1.year - 1 else b1.year;
  }

  /**
   * The retry after the month stage raised: the second pass searches back
   * from the end of the previous month; it returns that search's day or
   * moves `base` (now at the last listed day) back by a positive count.
   */
  lemma RetryEarlier(S: Schedule, b1: DateTime, b: DateTime, c: bool, r: DateTime)
    requires WellFormed(S) && ValidDateTime(b) && ValidDateTime(b1) && DayOnly(S)
    requires b1.year == LastOfPreviousMonth(b).year && b1.month == LastOfPreviousMonth(b).month
    requires b1.hour == b.hour && b1.minute == b.minute
    requires forall d :: d in S.days ==> d <= b1.day
    requires DayMonthWalk(S, b1, LastOfPreviousMonth(b), true, c) == Ok(r)
    ensures DateBefore(r, b)
  {
    var l := LastOfPreviousMonth(b);
    var st := DayStage(S, b1, l, c).value;
    DayOnlyStep(S, b1, l, c, st);
    assert AfterDayStage(S, b1, st, true) == Ok(r);
    if st.step.carry {
      assert r == st.tmp;
    } else {
      var pd := PrevTime(S.days, st.tmp.day).value;
      assert st.tmp.day in S.days && pd.value <= 31;
      AddDaysBackEarlier(b1, st.step.days);
    }
  }

  /** When `next_run(time)` is `time` itself, `prev_run` walks back from `time`. */
  lemma PrevRunAtRun(S: Schedule, t: DateTime)
    requires WellFormed(S) && ValidDateTime(t) && NextRun(S, t) == Ok(t)
    ensures PrevRun(S, t) == PrevRunFrom(S, t)
  {
  }

  // ---------------------------------------------------------------------------
  // Where the walk does not reach the latest earlier run

  /** `S` is `0 0 * * <weekdays>` after expansion: midnight on every listed day. */
  predicate Midnight(S: Schedule) {
    S.minutes == [0] && S.hours == [0] && Full(S.days, 1, 31) && Full(S.months, 1, 12)
    && FieldOk(Weekday, S.weekdays)
  }

  /**
   * `0 0 * * *` at 2024-05-01 00:00: the day stage borrows 30 - 31 + 1 = 0
   * days, so the month stage moves to 2024-04-01, skipping the run at
   * 2024-04-30 00:00 and 28 others.
   */
  lemma DailyPrevRunSkipsMonth(S: Schedule)
    requires Midnight(S) && Full(S.weekdays, 0, 7)
    ensures WellFormed(S)
    ensures NextRun(S, DateTime(2024, 5, 1, 0, 0)) == Ok(DateTime(2024, 5, 1, 0, 0))
    ensures PrevRun(S, DateTime(2024, 5, 1, 0, 0)) == Ok(DateTime(2024, 4, 1, 0, 0))
    ensures Scheduled(S, DateTime(2024, 4, 30, 0, 0))
  {
    MidnightListed(S, DateTime(2024, 4, 30, 0, 0));
    DailyPrevRunFrom(S);
    DailyFixpoint(S);
    PrevRunAtRun(S, DateTime(2024, 5, 1, 0, 0));
  }

  /** `0 0 * * *` runs at 2024-05-01 00:00, so `next_run` stays there. */
  lemma DailyFixpoint(S: Schedule)
    requires Midnight(S) && Full(S.weekdays, 0, 7)
    ensures WellFormed(S)
    ensures NextRun(S, DateTime(2024, 5, 1, 0, 0)) == Ok(DateTime(2024, 5, 1, 0, 0))
  {
    var base := DateTime(2024, 5, 1, 0, 0);
    MidnightListed(S, base);
    NextRunFixpoint(S, base);
  }

  /** The backward walk of `DailyPrevRunSkipsMonth` from 2024-05-01 00:00. */
  lemma DailyPrevRunFrom(S: Schedule)
    requires Midnight(S) && Full(S.weekdays, 0, 7)
    ensures WellFormed(S)
    ensures PrevRunFrom(S, DateTime(2024, 5, 1, 0, 0)) == Ok(DateTime(2024, 4, 1, 0, 0))
  {
    var base := DateTime(2024, 5, 1, 0, 0);
    MidnightListed(S, base);
    MinuteHourWrap(S, base);
    DailyWalk(S);
  }

  /** Under `0 0 * * *` every real date at midnight is a run. */
  lemma MidnightListed(S: Schedule, t: DateTime)
    requires Midnight(S) && Full(S.weekdays, 0, 7)
    requires ValidDateTime(t) && t.hour == 0 && t.minute == 0
    ensures Scheduled(S, t) && t.day in S.days && WellFormed(S)
  {
    assert S.days[t.day - 1] == t.day && S.months[t.month - 1] == t.month;
  }

  /** The day/month walk of `DailyPrevRunSkipsMonth`. */
  lemma DailyWalk(S: Schedule)
    requires Midnight(S) && Full(S.weekdays, 0, 7)
    ensures WellFormed(S)
    ensures DayMonthWalk(S, DateTime(2024, 5, 1, 0, 0), DateTime(2024, 5, 1, 0, 0), false, true)
         == Ok(DateTime(2024, 4, 1, 0, 0))
  {
    var base := DateTime(2024, 5, 1, 0, 0);
    Weekdays2024();
    PrevTimeFull(S.days, 1, 31, 1);
    PrevTimeFull(S.weekdays, 0, 7, 3);
    PrevTimeFull(S.months, 1, 12, 5);
    assert S.days[0] == 1 && S.months[4] == 5 && S.weekdays[3] == 3;
    assert DayBorrow(base, Pick(31, true)) == Borrow(0, true);
    assert WeekdayRule(S, base, Borrow(0, true), Pick(2, false), true) == Borrow(0, true);
    assert AddDays(base, 0) == base;
    assert DayStage(S, base, base, true) == Ok(Stage(base, Borrow(0, true)));
    MonthStageMoves(S, base, base, true);
  }

  /**
   * `0 0 * * 0,5` at Friday 2024-03-01 00:00: the day borrow into February
   * is 29 - 31 + 1 = -1 and the weekday rule keeps the larger of -1 and
   * -2, so the "previous" run is Saturday 2024-03-02, after `time`.
   */
  lemma WeekdayPrevRunGoesForward(S: Schedule)
    requires Midnight(S) && S.weekdays == [0, 5]
    ensures WellFormed(S)
    ensures NextRun(S, DateTime(2024, 3, 1, 0, 0)) == Ok(DateTime(2024, 3, 1, 0, 0))
    ensures PrevRun(S, DateTime(2024, 3, 1, 0, 0)) == Ok(DateTime(2024, 3, 2, 0, 0))
    ensures Before(DateTime(2024, 3, 1, 0, 0), DateTime(2024, 3, 2, 0, 0))
  {
    ForwardPrevRunFrom(S);
    ForwardFixpoint(S, DateTime(2024, 3, 1, 0, 0));
    PrevRunAtRun(S, DateTime(2024, 3, 1, 0, 0));
  }

  /** The backward walk of `WeekdayPrevRunGoesForward` from 2024-03-01 00:00. */
  lemma ForwardPrevRunFrom(S: Schedule)
    requires Midnight(S) && S.weekdays == [0, 5]
    ensures WellFormed(S)
    ensures PrevRunFrom(S, DateTime(2024, 3, 1, 0, 0)) == Ok(DateTime(2024, 3, 2, 0, 0))
  {
    var base := DateTime(2024, 3, 1, 0, 0);
    assert S.days[0] == 1 && S.months[2] == 3;
    MinuteHourWrap(S, base);
    ForwardWalk(S);
  }

  /** `0 0 * * 0,5` runs on Friday 2024-03-01 00:00, so `next_run` stays there. */
  lemma ForwardFixpoint(S: Schedule, base: DateTime)
    requires Midnight(S) && S.weekdays == [0, 5] && base == DateTime(2024, 3, 1, 0, 0)
    ensures WellFormed(S)
    ensures NextRun(S, base) == Ok(base)
  {
    Weekdays2024();
    assert S.days[0] == 1 && S.months[2] == 3;
    assert CronDow(5) == DayOfWeek(2024, 3, 1);
    NextRunFixpoint(S, base);
  }

  /** The day/month walk of `WeekdayPrevRunGoesForward`. */
  lemma ForwardWalk(S: Schedule)
    requires Midnight(S) && S.weekdays == [0, 5]
    ensures WellFormed(S)
    ensures DayMonthWalk(S, DateTime(2024, 3, 1, 0, 0), DateTime(2024, 3, 1, 0, 0), false, true)
         == Ok(DateTime(2024, 3, 2, 0, 0))
  {
    var base := DateTime(2024, 3, 1, 0, 0);
    Weekdays2024();
    PrevTimeFull(S.days, 1, 31, 1);
    assert S.days[0] == 1;
    assert PrevTime(S.weekdays, 5) == Ok(Pick(0, false));
    assert DayBorrow(base, Pick(31, true)) == Borrow(-1, true);
    assert WeekdayRule(S, base, Borrow(-1, true), Pick(0, false), true) == Borrow(-1, false);
    assert DayStage(S, base, base, true) == Ok(Stage(base, Borrow(-1, false)));
    assert AddDays(base, 1) == DateTime(2024, 3, 2, 0, 0);
  }

  /**
   * cron.py:450 looks the weekday of `base` up as Monday 1 ... Sunday 7
   * outside any `try`: for `0 0 * * 0` at Sunday 2024-01-07 00:00, 7 is not
   * listed and the walk fails.
   */
  lemma SundayPrevRunFails(S: Schedule)
    requires Midnight(S) && S.weekdays == [0]
    ensures WellFormed(S)
    ensures PrevRunFrom(S, DateTime(2024, 1, 7, 0, 0)) == Err(NotInList)
  {
    var base := DateTime(2024, 1, 7, 0, 0);
    Weekdays2024();
    assert S.days[6] == 7;
    assert PrevTime(S.minutes, 0) == Ok(Pick(0, true));
    assert PrevRunFrom(S, base) == DayMonthWalk(S, base, base, false, true);
    assert PrevTime(S.weekdays, 7) == Err(NotInList);
  }
  // ---------------------------------------------------------------------------
  // With a day of month listed, the day search never gives up

  /** Each pass of the day and month loop finds a listed day, so no pass ends in `SearchLimit`. */
  lemma {:induction false} WalkSearchStops(S: Schedule, base: DateTime, tmp: DateTime, previousMonths: bool, carry: bool)
    requires WellFormed(S) && ValidDateTime(base) && ValidDateTime(tmp)
    requires tmp.hour == base.hour && tmp.minute == base.minute
    requires |S.days| > 0
    ensures DayMonthWalk(S, base, tmp, previousMonths, carry) != Err(SearchLimit)
    decreases if previousMonths then 0 else 1, 1
  {
    var ds := DayStage(S, base, tmp, carry);
    assert ds != Err(SearchLimit) by {
      assert S.days[0] in S.days;
      SeekListedDayFinds(S.days, tmp, S.days[0]);
    }
    if ds.Ok? {
      assert DayMonthWalk(S, base, tmp, previousMonths, carry) == AfterDayStage(S, base, ds.value, previousMonths);
      StageSearchStops(S, base, ds.value, previousMonths);
    }
  }

  /** The rest of a pass ends in `SearchLimit` only through a later pass. */
  lemma {:induction false} StageSearchStops(S: Schedule, base: DateTime, st: Stage, previousMonths: bool)
    requires WellFormed(S) && ValidDateTime(base) && ValidDateTime(st.tmp)
    requires st.tmp.hour == base.hour && st.tmp.minute == base.minute
    requires |S.days| > 0
    ensures AfterDayStage(S, base, st, previousMonths) != Err(SearchLimit)
    decreases if previousMonths then 0 else 1, 0
  {
    var b := AddDays(base, -st.step.days);
    if !st.step.carry {
      assert AfterDayStage(S, base, st, previousMonths) == Ok(b);
    } else if previousMonths {
      assert AfterDayStage(S, base, st, previousMonths) == Ok(st.tmp);
    } else {
      var m := MonthStage(S, b, st.tmp, st.step.carry);
      if m.Moved? {
        assert AfterDayStage(S, base, st, previousMonths) == Ok(m.t);
      } else {
        var l := LastOfPreviousMonth(st.tmp);
        assert AfterDayStage(S, base, st, previousMonths) == DayMonthWalk(S, b, l, true, m.carry);
        WalkSearchStops(S, b, l, true, m.carry);
      }
    }
  }


  /**
   * With no day of month listed, `prev_run` raises in `next_run` before its
   * day search starts; otherwise, once `next_run` succeeded, it never ends
   * in `SearchLimit`: the 400-step bound of `SeekListedDay` is never what
   * stops the walk.
   */
  lemma PrevRunSearchStops(S: Schedule, t: DateTime)
    requires WellFormed(S) && ValidDateTime(t)
    ensures |S.days| == 0 ==> PrevRun(S, t) == Err(EmptyList)
    ensures NextRun(S, t).Ok? ==> PrevRun(S, t) != Err(SearchLimit)
  {
    if |S.days| == 0 {
      NextRunNoDays(S, t);
    } else if NextRun(S, t).Ok? {
      var base := NextRun(S, t).value;
      var pm := PrevTime(S.minutes, base.minute);
      if pm.Ok? && pm.value.carry {
        var b1 := base.(minute := pm.value.value);
        var ph := PrevTime(S.hours, b1.hour);
        if ph.Ok? && ph.value.carry {
          var b2 := b1.(hour := ph.value.value);
          WalkSearchStops(S, b2, b2, false, true);
        }
      }
    }
  }
}
