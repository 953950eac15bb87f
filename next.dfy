/**
 * The forward resolver: `__next_month`, `__next_day`, `__next_hour`,
 * `__next_minute` and `next_run`. The source threads one mutable `sol`
 * dictionary through mutually recursive calls; here `sol` is a `DateTime`
 * record that every step takes and returns, together with the step's boolean
 * result ("the field kept the asked value"). Every call consumes one unit of
 * `fuel`, which stands for the interpreter's recursion limit: an entry no
 * date satisfies (such as `0 0 30 2 *`) recurses without end in the source.
 */
module CronNext {
  import opened Wrappers
  import opened Calendar
  import opened CronFields
  import opened CronSearch

  /** The `sol` record after a resolver call, and the call's return value. */
  datatype Step = Step(sol: DateTime, same: bool)

  /**
   * The locals of `__next_day` after its search loop: the record, the day the
   * loop settled on (`day`, reset to 1 whenever the month moved), and the
   * `__next_time` answer for that day (`day_tmp`, `day_carry`).
   */
  datatype Probe = Probe(sol: DateTime, day: int, dayTmp: int, dayCarry: bool)

  /** Nesting allowed to one `next_run` call. */
  const Budget: nat := 1000

  /** Cron weekday (Sunday is 0 or 7) to `date.weekday()` (Monday is 0, Sunday is 6). */
  function CronDow(w: int): (r: int)
    ensures 0 <= w <= 7 ==> 0 <= r <= 6
    ensures 1 <= w <= 7 ==> r == w - 1
    ensures w == 0 || w == 7 ==> r == 6
  {
    if w - 1 < 0 then 6 else w - 1
  }

  predicate InM(S: Schedule, t: DateTime) { t.month in S.months }
  predicate InH(S: Schedule, t: DateTime) { t.hour in S.hours }
  predicate InMin(S: Schedule, t: DateTime) { t.minute in S.minutes }

  /** Every day of month listed but not every weekday: only the weekdays decide (cron.py:308). */
  predicate WeekdayOnly(S: Schedule) { |S.days| == 31 && |S.weekdays| != 8 }

  /** Every weekday listed: only the days of month decide (cron.py:344, 376). */
  predicate DayOnly(S: Schedule) { |S.weekdays| == 8 }

  predicate WeekdayListed(S: Schedule, t: DateTime)
    requires 1 <= t.month <= 12
  {
    exists w :: w in S.weekdays && CronDow(w) == DayOfWeek(t.year, t.month, t.day)
  }

  /** The day/weekday rule as the resolver applies it, fullness decided by list length. */
  predicate DayMatches(S: Schedule, t: DateTime) {
    1 <= t.month <= 12 &&
    if WeekdayOnly(S) then WeekdayListed(S, t)
    else if DayOnly(S) then t.day in S.days
    else t.day in S.days || WeekdayListed(S, t)
  }

  /**
   * When the step `r` taken from day `day` of the month of `s` stays in that
   * month, no day from `day` up to the one it lands on satisfies the day
   * rule; it keeps `day` only when reporting it unchanged, and a moved day
   * starts at the first listed hour and minute.
   */
  predicate EarliestInMonth(S: Schedule, s: DateTime, day: int, r: Step) {
    r.sol.year == s.year && r.sol.month == s.month ==>
      day <= r.sol.day && NoRunDay(S, s, day, r.sol.day)
      && (r.same ==> r.sol.day == day) && (!r.same ==> FirstTime(S, r.sol))
  }

  /** `t` is at the first listed hour and the first listed minute: where a step that moved the date resets the clock. */
  predicate FirstTime(S: Schedule, t: DateTime) {
    |S.hours| > 0 && |S.minutes| > 0 && t.hour == S.hours[0] && t.minute == S.minutes[0]
  }

  /** No day from `lo` up to, not including, `hi` in the month of `s` satisfies the day rule. */
  predicate NoRunDay(S: Schedule, s: DateTime, lo: int, hi: int) {
    forall d :: lo <= d < hi ==> !DayMatches(S, s.(day := d))
  }

  /** A timestamp the entry fires at, as far as `next_run` is concerned. */
  predicate Scheduled(S: Schedule, t: DateTime) {
    InM(S, t) && DayMatches(S, t) && InH(S, t) && InMin(S, t)
  }

  /** `__next_month(month, sol)` */
  function NextMonth(S: Schedule, mo: int, s: DateTime, fuel: nat): (r: Result<Step, Fault>)
    requires WellFormed(S)
    ensures r.Ok? ==> InM(S, r.value.sol)
    ensures r.Ok? && r.value.same ==> r.value.sol == s.(month := mo)
    ensures r.Ok? && !r.value.same ==>
              InH(S, r.value.sol) && InMin(S, r.value.sol) && DayMatches(S, r.value.sol)
              && MonthBefore(s.(month := mo), r.value.sol)
    ensures r.Ok? ==> !Before(r.value.sol, s.(month := mo))
    ensures fuel > 0 && mo in S.months ==> r == Ok(Step(s.(month := mo), true))
    decreases fuel
  {
    if fuel == 0 then Err(RecursionLimit)
    else
      var p :- NextTime(S.months, mo);
      var s1 := s.(year := if p.carry then s.year + 1 else s.year, month := p.value);
      if p.value != mo then
        var m :- EnterMonth(S, s1, fuel - 1);
        Ok(Step(m, false))
      else
        Ok(Step(s1, true))
  }

  /** `__next_day(1, sol)`, `__next_hour(0, sol)`, `__next_minute(0, sol)`: the first run in or after the month of `s`. */
  function EnterMonth(S: Schedule, s: DateTime, fuel: nat): (r: Result<DateTime, Fault>)
    requires WellFormed(S) && InM(S, s)
    ensures r.Ok? ==> Scheduled(S, r.value)
    ensures r.Ok? ==> !MonthBefore(r.value, s)
    decreases fuel
  {
    if fuel == 0 then Err(RecursionLimit)
    else
      var d :- NextDay(S, 1, s, fuel - 1);
      var h :- NextHour(S, 0, d.sol, fuel - 1);
      NextMinute(S, 0, h.sol, fuel - 1)
  }

  /** The search loop of `__next_day` (cron.py:288-301), moving to the next listed month on an impossible date. */
  function DayProbe(S: Schedule, day: int, s: DateTime, fuel: nat): (r: Result<Probe, Fault>)
    requires WellFormed(S) && InM(S, s)
    ensures r.Ok? ==> InM(S, r.value.sol)
    ensures r.Ok? ==> ValidDate(r.value.sol.year, r.value.sol.month, r.value.day)
                      && ValidDate(r.value.sol.year, r.value.sol.month, r.value.dayTmp)
    ensures r.Ok? ==> r.value.dayTmp in S.days
    ensures r.Ok? && !r.value.dayCarry ==> r.value.dayTmp >= r.value.day
    ensures r.Ok? ==> (r.value.sol == s && r.value.day == day)
                      || (r.value.day == 1 && MonthBefore(s, r.value.sol))
    ensures r.Ok? && InH(S, s) ==> InH(S, r.value.sol)
    ensures r.Ok? && InMin(S, s) ==> InMin(S, r.value.sol)
    ensures fuel > 0 && ValidDate(s.year, s.month, day) && day in S.days ==> r == Ok(Probe(s, day, day, false))
    decreases fuel
  {
    if fuel == 0 then Err(RecursionLimit)
    else if ValidDate(s.year, s.month, day) then
      var p :- NextTime(S.days, day);
      if ValidDate(s.year, s.month, p.value) then Ok(Probe(s, day, p.value, p.carry))
      else
        var f :- NextMonth(S, s.month + 1, s, fuel - 1);
        DayProbe(S, 1, f.sol, fuel - 1)
    else
      var f :- NextMonth(S, s.month + 1, s, fuel - 1);
      DayProbe(S, 1, f.sol, fuel - 1)
  }

  /** The common ending of `__next_day`: when the day moved, reset hour and minute and report it. */
  function Settle(S: Schedule, day: int, s: DateTime, fuel: nat): (r: Result<Step, Fault>)
    requires WellFormed(S) && InM(S, s)
    ensures r.Ok? ==> InM(S, r.value.sol)
    ensures r.Ok? && DayMatches(S, s) ==> DayMatches(S, r.value.sol)
    ensures r.Ok? ==> (r.value.same <==> s.day == day)
    ensures r.Ok? && r.value.same ==> r.value.sol == s
    ensures fuel > 0 && s.day == day ==> r == Ok(Step(s, true))
    ensures r.Ok? && !r.value.same ==> InH(S, r.value.sol) && InMin(S, r.value.sol)
    ensures r.Ok? ==> !DateBefore(r.value.sol, s)
    decreases fuel
  {
    if fuel == 0 then Err(RecursionLimit)
    else if s.day != day then
      var h :- NextHour(S, 0, s, fuel - 1);
      var m :- NextMinute(S, 0, h.sol, fuel - 1);
      Ok(Step(m, false))
    else
      Ok(Step(s, true))
  }

  /** cron.py:376-383: take the listed day, moving on a month when it carried. */
  function DayTail(S: Schedule, day: int, s: DateTime, dayTmp: int, dayCarry: bool, fuel: nat): (r: Result<Step, Fault>)
    requires WellFormed(S) && InM(S, s) && !WeekdayOnly(S)
    requires dayTmp in S.days && (!dayCarry ==> dayTmp >= day)
    ensures r.Ok? ==> InM(S, r.value.sol) && DayMatches(S, r.value.sol)
    ensures r.Ok? && InH(S, s) ==> InH(S, r.value.sol)
    ensures r.Ok? && InMin(S, s) ==> InMin(S, r.value.sol)
    ensures r.Ok? && !r.value.same ==> InH(S, r.value.sol) && InMin(S, r.value.sol)
    ensures r.Ok? ==> !Before(r.value.sol, s.(day := day))
    ensures r.Ok? && !r.value.same ==> DateBefore(s.(day := day), r.value.sol)
    ensures fuel > 1 && dayTmp == day && !dayCarry ==> r == Ok(Step(s.(day := day), true))
    decreases fuel
  {
    if fuel == 0 then Err(RecursionLimit)
    else
      var s1 := s.(day := dayTmp);
      if dayCarry then
        var f :- NextMonth(S, s1.month + 1, s1, fuel - 1);
        assert DateBefore(s.(day := day), f.sol) && DayMatches(S, f.sol);
        Settle(S, day, f.sol, fuel - 1)
      else
        assert InM(S, s1) && DayMatches(S, s1);
        Settle(S, day, s1, fuel - 1)
  }

  /** `__next_day(day, sol)` */
  function NextDay(S: Schedule, day: int, s: DateTime, fuel: nat): (r: Result<Step, Fault>)
    requires WellFormed(S) && InM(S, s)
    ensures r.Ok? ==> InM(S, r.value.sol) && DayMatches(S, r.value.sol)
    ensures r.Ok? && InH(S, s) ==> InH(S, r.value.sol)
    ensures r.Ok? && InMin(S, s) ==> InMin(S, r.value.sol)
    ensures r.Ok? && !r.value.same ==> InH(S, r.value.sol) && InMin(S, r.value.sol)
    ensures r.Ok? ==> !Before(r.value.sol, s.(day := day))
    ensures r.Ok? && !r.value.same ==> DateBefore(s.(day := day), r.value.sol)
    ensures fuel > 5 && ValidDate(s.year, s.month, day) && day in S.days && |S.weekdays| > 0
            && (WeekdayOnly(S) ==> DayOfWeek(s.year, s.month, day) + 1 in S.weekdays)
            ==> r == Ok(Step(s.(day := day), true))
    decreases fuel
  {
    if fuel == 0 then Err(RecursionLimit)
    else
      var probe :- DayProbe(S, day, s, fuel - 1);
      DayChoice(S, probe.day, probe.sol, probe.dayTmp, probe.dayCarry, fuel - 1)
  }

  /**
   * cron.py:303-383, after the search loop: choose the day by the weekdays,
   * by the days of month, or by whichever of the two comes first.
   */
  function DayChoice(S: Schedule, day: int, s: DateTime, dayTmp: int, dayCarry: bool, fuel: nat): (r: Result<Step, Fault>)
    requires WellFormed(S) && InM(S, s)
    requires ValidDate(s.year, s.month, day) && ValidDate(s.year, s.month, dayTmp)
    requires dayTmp in S.days && (!dayCarry ==> dayTmp >= day)
    ensures r.Ok? ==> InM(S, r.value.sol) && DayMatches(S, r.value.sol)
    ensures r.Ok? && InH(S, s) ==> InH(S, r.value.sol)
    ensures r.Ok? && InMin(S, s) ==> InMin(S, r.value.sol)
    ensures r.Ok? && !r.value.same ==> InH(S, r.value.sol) && InMin(S, r.value.sol)
    ensures r.Ok? ==> !Before(r.value.sol, s.(day := day))
    ensures r.Ok? && !r.value.same ==> DateBefore(s.(day := day), r.value.sol)
    ensures fuel > 4 && dayTmp == day && !dayCarry && |S.weekdays| > 0
            && (WeekdayOnly(S) ==> DayOfWeek(s.year, s.month, day) + 1 in S.weekdays)
            ==> r == Ok(Step(s.(day := day), true))
    decreases fuel
  {
    if fuel == 0 then Err(RecursionLimit)
    else if DayOnly(S) && !WeekdayOnly(S) then
      DayTail(S, day, s, dayTmp, dayCarry, fuel - 1)
    else
      WeekdayChoice(S, day, s, dayTmp, dayCarry, fuel - 1)
  }

  /** cron.py:303-374: some weekday is missing from the list, so the weekdays take part. */
  function WeekdayChoice(S: Schedule, day: int, s: DateTime, dayTmp: int, dayCarry: bool, fuel: nat): (r: Result<Step, Fault>)
    requires WellFormed(S) && InM(S, s) && !(DayOnly(S) && !WeekdayOnly(S))
    requires ValidDate(s.year, s.month, day) && ValidDate(s.year, s.month, dayTmp)
    requires dayTmp in S.days && (!dayCarry ==> dayTmp >= day)
    ensures r.Ok? ==> InM(S, r.value.sol) && DayMatches(S, r.value.sol)
    ensures r.Ok? && InH(S, s) ==> InH(S, r.value.sol)
    ensures r.Ok? && InMin(S, s) ==> InMin(S, r.value.sol)
    ensures r.Ok? && !r.value.same ==> InH(S, r.value.sol) && InMin(S, r.value.sol)
    ensures r.Ok? ==> !Before(r.value.sol, s.(day := day))
    ensures r.Ok? && !r.value.same ==> DateBefore(s.(day := day), r.value.sol)
    ensures fuel > 3 && dayTmp == day && !dayCarry && |S.weekdays| > 0
            && (WeekdayOnly(S) ==> DayOfWeek(s.year, s.month, day) + 1 in S.weekdays)
            ==> r == Ok(Step(s.(day := day), true))
    decreases fuel
  {
    if fuel == 0 then Err(RecursionLimit)
    else
      var diff :- WeekdayDiff(S, DayOfWeek(s.year, s.month, day));
      WeekdayStep(S, s, day, diff);
      if day + diff <= DaysInMonth(s.year, s.month) then
        NearestDay(S, day, s, dayTmp, dayCarry, diff, fuel - 1)
      else if WeekdayOnly(S) then
        MonthRoll(S, s, fuel - 1)
      else
        DayTail(S, day, s, dayTmp, dayCarry, fuel - 1)
  }

  /**
   * cron.py:316-326 and 350-374: the listed weekday `diff` days ahead lies in
   * this month; take it, or the listed day of month when that comes first
   * and did not carry.
   */
  function NearestDay(S: Schedule, day: int, s: DateTime, dayTmp: int, dayCarry: bool, diff: int, fuel: nat): (r: Result<Step, Fault>)
    requires WellFormed(S) && InM(S, s) && !(DayOnly(S) && !WeekdayOnly(S))
    requires 0 <= diff && WeekdayListed(S, s.(day := day + diff))
    requires dayTmp in S.days && (!dayCarry ==> dayTmp >= day)
    ensures r.Ok? ==> InM(S, r.value.sol) && DayMatches(S, r.value.sol)
    ensures r.Ok? && InH(S, s) ==> InH(S, r.value.sol)
    ensures r.Ok? && InMin(S, s) ==> InMin(S, r.value.sol)
    ensures r.Ok? && !r.value.same ==> InH(S, r.value.sol) && InMin(S, r.value.sol)
    ensures r.Ok? ==> !Before(r.value.sol, s.(day := day))
    ensures r.Ok? && !r.value.same ==> DateBefore(s.(day := day), r.value.sol)
    ensures fuel > 1 && dayTmp == day && !dayCarry && (WeekdayOnly(S) ==> diff == 0)
            ==> r == Ok(Step(s.(day := day), true))
    decreases fuel
  {
    if fuel == 0 then Err(RecursionLimit)
    else if WeekdayOnly(S) || dayCarry || dayTmp - day > diff then
      Settle(S, day, s.(day := day + diff), fuel - 1)
    else
      Settle(S, day, s.(day := dayTmp), fuel - 1)
  }

  /**
   * cron.py:304-316: the days from a date whose `weekday()` is `dow` to the weekday that `__next_time`
   * picks among the listed ones, searching with Monday as 1 and Sunday as 7
   * and adding a week when the search wrapped around.
   */
  function WeekdayDiff(S: Schedule, dow: int): (r: Result<int, Fault>)
    requires WellFormed(S) && 0 <= dow < 7
    ensures r.Err? <==> |S.weekdays| == 0
    ensures r.Ok? ==> 0 <= r.value <= 13
    ensures r.Ok? ==> exists w :: w in S.weekdays && CronDow(w) == (dow + r.value) % 7
    ensures dow + 1 in S.weekdays ==> r == Ok(0)
  {
    var weekday := dow + 1;
    var w :- NextTime(S.weekdays, weekday);
    var diff := CronDow(w.value) - (weekday - 1) + (if w.carry then 7 else 0);
    assert w.value in S.weekdays && CronDow(w.value) == (weekday - 1 + diff) % 7;
    Ok(diff)
  }

  /**
   * `now + diff days` is at most 13 days on, so it stays in the month exactly
   * when the day number fits, and then it falls on a listed weekday.
   */
  lemma WeekdayStep(S: Schedule, s: DateTime, day: int, diff: int)
    requires WellFormed(S) && ValidDate(s.year, s.month, day)
    requires WeekdayDiff(S, DayOfWeek(s.year, s.month, day)) == Ok(diff)
    ensures (AddDays(s.(day := day), diff).month == s.month) == (day + diff <= DaysInMonth(s.year, s.month))
    ensures day + diff <= DaysInMonth(s.year, s.month) ==> 0 <= diff && WeekdayListed(S, s.(day := day + diff))
  {
    var now := s.(day := day);
    AddDaysShort(now, diff);
    if day + diff <= DaysInMonth(s.year, s.month) {
      WeekdayTarget(S, now, diff);
      assert now.(day := now.day + diff) == s.(day := day + diff);
    }
  }

  /**
   * Without a 0 in the weekday list, no day of the month before `day + diff`
   * (and not before `day`) falls on a listed weekday.
   */
  lemma WeekdayGap(S: Schedule, s: DateTime, day: int, diff: int)
    requires WellFormed(S) && ValidDate(s.year, s.month, day) && 0 !in S.weekdays
    requires WeekdayDiff(S, DayOfWeek(s.year, s.month, day)) == Ok(diff)
    ensures forall d :: day <= d < day + diff ==> !WeekdayListed(S, s.(day := d))
  {
    forall d | day <= d < day + diff
      ensures !WeekdayListed(S, s.(day := d))
    {
      WeekdayGapDay(S, s, day, diff, d);
    }
  }

  lemma WeekdayGapDay(S: Schedule, s: DateTime, day: int, diff: int, d: int)
    requires WellFormed(S) && ValidDate(s.year, s.month, day) && 0 !in S.weekdays
    requires WeekdayDiff(S, DayOfWeek(s.year, s.month, day)) == Ok(diff)
    requires day <= d < day + diff
    ensures !WeekdayListed(S, s.(day := d))
  {
    var dow := DayOfWeek(s.year, s.month, day);
    WeekdayDiffNearest(S, dow);
    WeekdayDistance(s.year, s.month, day, d);
    NoWeekdayBetween(S.weekdays, dow, diff, DayOfWeek(s.year, s.month, d), d - day);
  }

  /** No weekday in `W` lies `x` days after `dow` when every one lies at least `diff > x` days after it. */
  lemma NoWeekdayBetween(W: seq<int>, dow: int, diff: int, dd: int, x: int)
    requires forall w :: w in W ==> diff <= (CronDow(w) - dow) % 7
    requires (dd - dow) % 7 == x < diff
    ensures forall w :: w in W ==> CronDow(w) != dd
  {
  }

  /** Within a month, the weekday of `d` lies `d - day` days after the weekday of `day` when that is under a week. */
  lemma WeekdayDistance(y: int, m: int, day: int, d: int)
    requires 1 <= m <= 12 && 0 <= d - day < 7
    ensures (DayOfWeek(y, m, d) - DayOfWeek(y, m, day)) % 7 == d - day
  {
    DayOfWeekInMonth(y, m, day, d);
    WeekBack(DayOfWeek(y, m, day), d - day);
  }

  /** Going `x` (under a week) days on from weekday `dow` and measuring the distance back gives `x`. */
  lemma WeekBack(dow: int, x: int)
    requires 0 <= dow < 7 && 0 <= x < 7
    ensures ((dow + x) % 7 - dow) % 7 == x
  {
    if dow + x >= 7 {
      assert (dow + x) % 7 == dow + x - 7;
    }
  }

  lemma WeekdayTarget(S: Schedule, now: DateTime, diff: int)
    requires ValidDate(now.year, now.month, now.day) && 0 <= diff <= 13
    requires exists w :: w in S.weekdays
               && CronDow(w) == (DayOfWeek(now.year, now.month, now.day) + diff) % 7
    requires now.day + diff <= DaysInMonth(now.year, now.month)
    ensures WeekdayListed(S, now.(day := now.day + diff))
  {
    var target := AddDays(now, diff);
    AddDaysShort(now, diff);
    AddDaysWeekday(now, diff);
    assert target == now.(day := now.day + diff);
  }

  /** cron.py:328-340: the weekday lies in a later month; move to the next listed month. */
  function MonthRoll(S: Schedule, s: DateTime, fuel: nat): (r: Result<Step, Fault>)
    requires WellFormed(S) && InM(S, s)
    ensures r.Ok? ==> !r.value.same && InM(S, r.value.sol) && DayMatches(S, r.value.sol)
    ensures r.Ok? ==> InH(S, r.value.sol) && InMin(S, r.value.sol)
    ensures r.Ok? ==> MonthBefore(s, r.value.sol)
    decreases fuel
  {
    if fuel == 0 then Err(RecursionLimit)
    else
      var f :- NextMonth(S, s.month + 1, s, fuel - 1);
      if f.same then
        var m :- EnterMonth(S, f.sol, fuel - 1);
        Ok(Step(m, false))
      else
        Ok(Step(f.sol, false))
  }

  /** `__next_hour(hour, sol)` */
  function NextHour(S: Schedule, hour: int, s: DateTime, fuel: nat): (r: Result<Step, Fault>)
    requires WellFormed(S) && InM(S, s)
    ensures r.Ok? ==> InM(S, r.value.sol) && InH(S, r.value.sol)
    ensures r.Ok? && DayMatches(S, s) ==> DayMatches(S, r.value.sol)
    ensures r.Ok? && InMin(S, s) ==> InMin(S, r.value.sol)
    ensures r.Ok? && !r.value.same ==> InMin(S, r.value.sol)
    ensures r.Ok? ==> !Before(r.value.sol, s.(hour := hour))
    ensures r.Ok? && !r.value.same ==>
              DateBefore(s, r.value.sol) || (SameDate(s, r.value.sol) && hour < r.value.sol.hour)
    ensures fuel > 0 && hour in S.hours ==> r == Ok(Step(s.(hour := hour), true))
    decreases fuel
  {
    if fuel == 0 then Err(RecursionLimit)
    else
      var p :- NextTime(S.hours, hour);
      var s1 := s.(hour := p.value);
      if p.carry then
        var d :- NextDay(S, s1.day + 1, s1, fuel - 1);
        if d.sol.hour != hour then
          var m :- NextMinute(S, 0, d.sol, fuel - 1);
          Ok(Step(m, false))
        else
          Ok(Step(d.sol, true))
      else if p.value != hour then
        var m :- NextMinute(S, 0, s1, fuel - 1);
        Ok(Step(m, false))
      else
        Ok(Step(s1, true))
  }

  /** `__next_minute(minute, sol)`, which always reports success. */
  function NextMinute(S: Schedule, minute: int, s: DateTime, fuel: nat): (r: Result<DateTime, Fault>)
    requires WellFormed(S) && InM(S, s)
    ensures r.Ok? ==> InM(S, r.value) && InMin(S, r.value)
    ensures r.Ok? && InH(S, s) ==> InH(S, r.value)
    ensures r.Ok? && DayMatches(S, s) ==> DayMatches(S, r.value)
    ensures r.Ok? ==> !Before(r.value, s.(minute := minute))
    ensures fuel > 0 && minute in S.minutes ==> r == Ok(s.(minute := minute))
    decreases fuel
  {
    if fuel == 0 then Err(RecursionLimit)
    else
      var p :- NextTime(S.minutes, minute);
      var s1 := s.(minute := p.value);
      if p.carry then
        var h :- NextHour(S, s1.hour + 1, s1, fuel - 1);
        Ok(h.sol)
      else
        Ok(s1)
  }

  /**
   * `next_run(time)` up to the final `datetime(...)` call: resolve the month,
   * then (while each step keeps the asked value) the day, hour and minute.
   */
  function Resolve(S: Schedule, t: DateTime): (r: Result<DateTime, Fault>)
    requires WellFormed(S) && ValidDateTime(t)
    ensures r.Ok? ==> Scheduled(S, r.value) && !Before(r.value, t)
  {
    var s0 := DateTime(t.year, 0, 0, 0, 0);
    var m :- NextMonth(S, t.month, s0, Budget);
    if !m.same then Ok(m.sol)
    else ResolveDay(S, t, m.sol)
  }

  /** `next_run` once the month of `time` is listed: `__next_day(time.day)` and on. */
  function ResolveDay(S: Schedule, t: DateTime, s: DateTime): (r: Result<DateTime, Fault>)
    requires WellFormed(S) && ValidDateTime(t) && InM(S, s)
    requires s == DateTime(t.year, t.month, 0, 0, 0)
    ensures r.Ok? ==> Scheduled(S, r.value) && !Before(r.value, t)
  {
    var d :- NextDay(S, t.day, s, Budget);
    if !d.same then Ok(d.sol)
    else ResolveHour(S, t, d.sol)
  }

  /** `next_run` once the date is settled no earlier than `time`: `__next_hour(time.hour)` and on. */
  function ResolveHour(S: Schedule, t: DateTime, s: DateTime): (r: Result<DateTime, Fault>)
    requires WellFormed(S) && ValidDateTime(t) && InM(S, s) && DayMatches(S, s)
    requires !DateBefore(s, t)
    ensures r.Ok? ==> Scheduled(S, r.value) && !Before(r.value, t)
  {
    var h :- NextHour(S, t.hour, s, Budget);
    HourOrder(t, s, h.sol);
    if !h.same then Ok(h.sol)
    else ResolveMinute(S, t, h.sol)
  }

  lemma HourOrder(t: DateTime, s: DateTime, r: DateTime)
    requires !DateBefore(s, t) && !Before(r, s.(hour := t.hour))
    ensures DateBefore(s, r) || (SameDate(s, r) && t.hour < r.hour) ==> Before(t, r)
    ensures !Before(r.(minute := t.minute), t)
  {
  }

  /** `next_run` once date and hour are settled no earlier than `time`: `__next_minute(time.minute)`. */
  function ResolveMinute(S: Schedule, t: DateTime, s: DateTime): (r: Result<DateTime, Fault>)
    requires WellFormed(S) && ValidDateTime(t) && InM(S, s) && DayMatches(S, s) && InH(S, s)
    requires !Before(s.(minute := t.minute), t)
    ensures r.Ok? ==> Scheduled(S, r.value) && !Before(r.value, t)
  {
    NextMinute(S, t.minute, s, Budget)
  }

  /**
   * `next_run(time)`: the resolved timestamp, which must be a real date
   * (`datetime(...)` raises `ValueError` on, say, February 30).
   */
  function NextRun(S: Schedule, t: DateTime): (r: Result<DateTime, Fault>)
    requires WellFormed(S) && ValidDateTime(t)
    ensures r.Ok? ==> ValidDateTime(r.value) && Scheduled(S, r.value) && !Before(r.value, t)
  {
    var sol :- Resolve(S, t);
    if ValidDateTime(sol) then Ok(sol) else Err(InvalidDate)
  }

  /**
   * A timestamp the entry fires at is its own next run, provided either its
   * day of month is listed (and, when only weekdays decide, its weekday is
   * listed under the number `__next_day` searches for, Monday 1 ... Sunday
   * 7), or the weekdays take part, its weekday is listed under that number
   * and the day of month `__next_time` offers for it exists in its month.
   */
  lemma NextRunFixpoint(S: Schedule, t: DateTime)
    requires WellFormed(S) && ValidDateTime(t) && Scheduled(S, t) && |S.weekdays| > 0
    requires (t.day in S.days && (WeekdayOnly(S) ==> DayOfWeek(t.year, t.month, t.day) + 1 in S.weekdays))
             || (!DayOnly(S) && DayOfWeek(t.year, t.month, t.day) + 1 in S.weekdays
                 && NextTime(S.days, t.day).Ok? && ValidDate(t.year, t.month, NextTime(S.days, t.day).value.value))
    ensures NextRun(S, t) == Ok(t)
  {
    var s0 := DateTime(t.year, 0, 0, 0, 0);
    var s1 := s0.(month := t.month);
    var s2 := s1.(day := t.day);
    var s3 := s2.(hour := t.hour);
    assert NextMonth(S, t.month, s0, Budget) == Ok(Step(s1, true));
    if t.day !in S.days || (WeekdayOnly(S) && DayOfWeek(t.year, t.month, t.day) + 1 !in S.weekdays) {
      NextDayWeekdayKeeps(S, t.day, s1, Budget);
    }
    assert NextDay(S, t.day, s1, Budget) == Ok(Step(s2, true));
    assert NextHour(S, t.hour, s2, Budget) == Ok(Step(s3, true));
    assert NextMinute(S, t.minute, s3, Budget) == Ok(t);
  }

  /**
   * `__next_day` keeps a day whose weekday is listed (Monday 1 ... Sunday 7)
   * whenever the weekdays take part and the offered day of month exists:
   * the weekday lies 0 days ahead, which no day of month can beat.
   */
  lemma NextDayWeekdayKeeps(S: Schedule, day: int, s: DateTime, fuel: nat)
    requires WellFormed(S) && InM(S, s) && ValidDate(s.year, s.month, day) && fuel > 4
    requires !DayOnly(S) && DayOfWeek(s.year, s.month, day) + 1 in S.weekdays
    requires NextTime(S.days, day).Ok? && ValidDate(s.year, s.month, NextTime(S.days, day).value.value)
    ensures NextDay(S, day, s, fuel) == Ok(Step(s.(day := day), true))
  {
    var p := NextTime(S.days, day).value;
    assert NextDay(S, day, s, fuel) == DayChoice(S, day, s, p.value, p.carry, fuel - 1) by {
      DayProbeHere(S, day, s, fuel - 1);
      NextDayUnfold(S, day, s, fuel);
    }
    DayChoiceKeeps(S, day, s, p.value, p.carry, fuel - 1);
  }

  /** With the weekday of `day` listed, the weekday rule keeps `day` itself. */
  lemma DayChoiceKeeps(S: Schedule, day: int, s: DateTime, dayTmp: int, dayCarry: bool, fuel: nat)
    requires WellFormed(S) && InM(S, s) && !DayOnly(S) && fuel > 3
    requires ValidDate(s.year, s.month, day) && ValidDate(s.year, s.month, dayTmp)
    requires dayTmp in S.days && (!dayCarry ==> dayTmp >= day)
    requires DayOfWeek(s.year, s.month, day) + 1 in S.weekdays
    ensures DayChoice(S, day, s, dayTmp, dayCarry, fuel) == Ok(Step(s.(day := day), true))
  {
    var now := s.(day := day);
    WeekdayDiffZero(S, s, day);
    WeekdayStep(S, s, day, 0);
    assert s.(day := day + 0) == now;
    assert Settle(S, day, now, fuel - 3) == Ok(Step(now, true));
    assert NearestDay(S, day, s, dayTmp, dayCarry, 0, fuel - 2) == Ok(Step(now, true));
    assert WeekdayChoice(S, day, s, dayTmp, dayCarry, fuel - 1) == Ok(Step(now, true));
  }

  /** A listed weekday lies 0 days ahead. */
  lemma WeekdayDiffZero(S: Schedule, s: DateTime, day: int)
    requires WellFormed(S) && ValidDate(s.year, s.month, day)
    requires DayOfWeek(s.year, s.month, day) + 1 in S.weekdays
    ensures WeekdayDiff(S, DayOfWeek(s.year, s.month, day)) == Ok(0)
  {
  }

  /** `__next_day` is its search loop followed by the choice of day. */
  lemma NextDayUnfold(S: Schedule, day: int, s: DateTime, fuel: nat)
    requires WellFormed(S) && InM(S, s) && fuel > 0 && DayProbe(S, day, s, fuel - 1).Ok?
    ensures var probe := DayProbe(S, day, s, fuel - 1).value;
            NextDay(S, day, s, fuel) == DayChoice(S, probe.day, probe.sol, probe.dayTmp, probe.dayCarry, fuel - 1)
  {
  }

  /** The search loop of `__next_day` moves to a later month when the day or the listed day it offers does not exist. */
  lemma DayProbeMoves(S: Schedule, day: int, s: DateTime, fuel: nat)
    requires WellFormed(S) && InM(S, s) && DayProbe(S, day, s, fuel).Ok?
    requires !(ValidDate(s.year, s.month, day) && NextTime(S.days, day).Ok?
               && ValidDate(s.year, s.month, NextTime(S.days, day).value.value))
    ensures MonthBefore(s, DayProbe(S, day, s, fuel).value.sol)
  {
    var f := NextMonth(S, s.month + 1, s, fuel - 1).value;
    assert MonthBefore(s, f.sol);
    assert DayProbe(S, day, s, fuel) == DayProbe(S, 1, f.sol, fuel - 1);
  }

  /** The search loop of `__next_day` stops at once when the day and the listed day it offers both exist. */
  lemma DayProbeHere(S: Schedule, day: int, s: DateTime, fuel: nat)
    requires WellFormed(S) && InM(S, s) && fuel > 0 && ValidDate(s.year, s.month, day)
    requires NextTime(S.days, day).Ok? && ValidDate(s.year, s.month, NextTime(S.days, day).value.value)
    ensures DayProbe(S, day, s, fuel)
            == Ok(Probe(s, day, NextTime(S.days, day).value.value, NextTime(S.days, day).value.carry))
  {
  }

  // ---------------------------------------------------------------------------
  // The day `__next_day` settles on within the month it started in

  /** cron.py:376-383 in detail: the listed day in this month, or a later month after a carry. */
  lemma DayTailFacts(S: Schedule, day: int, s: DateTime, dayTmp: int, dayCarry: bool, fuel: nat)
    requires WellFormed(S) && InM(S, s) && !WeekdayOnly(S)
    requires dayTmp in S.days && (!dayCarry ==> dayTmp >= day)
    requires DayTail(S, day, s, dayTmp, dayCarry, fuel).Ok?
    ensures var r := DayTail(S, day, s, dayTmp, dayCarry, fuel).value;
            (!dayCarry ==> SameDate(r.sol, s.(day := dayTmp)) && (r.same <==> dayTmp == day)
                           && (!r.same ==> FirstTime(S, r.sol)))
            && (dayCarry ==> MonthBefore(s, r.sol))
  {
    if dayCarry {
      var s1 := s.(day := dayTmp);
      assert MonthBefore(s, NextMonth(S, s1.month + 1, s1, fuel - 1).value.sol);
    } else {
      DayTailHere(S, day, s, dayTmp, fuel);
    }
  }

  /** Without a carry the listed day is taken in this month. */
  lemma DayTailHere(S: Schedule, day: int, s: DateTime, dayTmp: int, fuel: nat)
    requires WellFormed(S) && InM(S, s) && !WeekdayOnly(S) && dayTmp in S.days && dayTmp >= day
    requires DayTail(S, day, s, dayTmp, false, fuel).Ok?
    ensures SameDate(DayTail(S, day, s, dayTmp, false, fuel).value.sol, s.(day := dayTmp))
    ensures !DayTail(S, day, s, dayTmp, false, fuel).value.same ==> FirstTime(S, DayTail(S, day, s, dayTmp, false, fuel).value.sol)
  {
    SettleFacts(S, day, s.(day := dayTmp), fuel - 1);
  }

  /** `__next_minute(0, sol)` takes the first listed minute and changes nothing else. */
  lemma NextMinuteFirst(S: Schedule, s: DateTime, fuel: nat)
    requires WellFormed(S) && InM(S, s) && NextMinute(S, 0, s, fuel).Ok?
    ensures |S.minutes| > 0 && NextMinute(S, 0, s, fuel).value == s.(minute := S.minutes[0])
  {
    NextTimeFirst(S.minutes, 0);
  }

  /** `__next_hour(0, sol)` takes the first listed hour and keeps the date. */
  lemma NextHourFirst(S: Schedule, s: DateTime, fuel: nat)
    requires WellFormed(S) && InM(S, s) && NextHour(S, 0, s, fuel).Ok?
    ensures var r := NextHour(S, 0, s, fuel).value;
            |S.hours| > 0 && r.sol == s.(hour := S.hours[0], minute := r.sol.minute)
            && (!r.same ==> |S.minutes| > 0 && r.sol.minute == S.minutes[0])
  {
    NextTimeFirst(S.hours, 0);
    var p := NextTime(S.hours, 0).value;
    if p.value != 0 {
      NextMinuteFirst(S, s.(hour := p.value), fuel - 1);
    }
  }

  /** The ending of `__next_day` keeps the date it is given, and a moved day starts at the first listed hour and minute. */
  lemma SettleFacts(S: Schedule, day: int, s: DateTime, fuel: nat)
    requires WellFormed(S) && InM(S, s) && Settle(S, day, s, fuel).Ok?
    ensures SameDate(Settle(S, day, s, fuel).value.sol, s)
    ensures !Settle(S, day, s, fuel).value.same ==> FirstTime(S, Settle(S, day, s, fuel).value.sol)
  {
    if s.day != day {
      SettleMoved(S, day, s, fuel);
    }
  }

  /** When the day moved, the ending of `__next_day` sets the first listed hour and minute. */
  lemma SettleMoved(S: Schedule, day: int, s: DateTime, fuel: nat)
    requires WellFormed(S) && InM(S, s) && Settle(S, day, s, fuel).Ok? && s.day != day
    ensures |S.hours| > 0 && |S.minutes| > 0
    ensures Settle(S, day, s, fuel) == Ok(Step(s.(hour := S.hours[0], minute := S.minutes[0]), false))
  {
    NextHourFirst(S, s, fuel - 1);
    NextMinuteFirst(S, NextHour(S, 0, s, fuel - 1).value.sol, fuel - 1);
  }

  /**
   * cron.py:316-326 and 350-374 in detail: the day taken is the listed
   * weekday `diff` days ahead when only weekdays decide or the day of month
   * carried, and otherwise the sooner of the listed weekday and the listed
   * day of month; the month stays, and a moved day starts at the first
   * listed hour and minute.
   */
  lemma NearestDayPick(S: Schedule, day: int, s: DateTime, dayTmp: int, dayCarry: bool, diff: int, fuel: nat)
    requires WellFormed(S) && InM(S, s) && !(DayOnly(S) && !WeekdayOnly(S))
    requires 0 <= diff && WeekdayListed(S, s.(day := day + diff))
    requires dayTmp in S.days && (!dayCarry ==> dayTmp >= day)
    requires NearestDay(S, day, s, dayTmp, dayCarry, diff, fuel).Ok?
    ensures var r := NearestDay(S, day, s, dayTmp, dayCarry, diff, fuel).value;
            r.sol.year == s.year && r.sol.month == s.month
            && (WeekdayOnly(S) || dayCarry || day + diff < dayTmp ==> r.sol.day == day + diff)
            && (!WeekdayOnly(S) && !dayCarry && dayTmp <= day + diff ==> r.sol.day == dayTmp)
            && (!r.same ==> FirstTime(S, r.sol))
  {
    if WeekdayOnly(S) || dayCarry || dayTmp - day > diff {
      NearestDayWeekday(S, day, s, dayTmp, dayCarry, diff, fuel);
    } else {
      NearestDayListed(S, day, s, dayTmp, dayCarry, diff, fuel);
    }
  }

  /** NearestDay takes the listed weekday `diff` days ahead. */
  lemma NearestDayWeekday(S: Schedule, day: int, s: DateTime, dayTmp: int, dayCarry: bool, diff: int, fuel: nat)
    requires WellFormed(S) && InM(S, s) && !(DayOnly(S) && !WeekdayOnly(S))
    requires 0 <= diff && WeekdayListed(S, s.(day := day + diff))
    requires dayTmp in S.days && (!dayCarry ==> dayTmp >= day)
    requires WeekdayOnly(S) || dayCarry || dayTmp - day > diff
    requires NearestDay(S, day, s, dayTmp, dayCarry, diff, fuel).Ok?
    ensures SameDate(NearestDay(S, day, s, dayTmp, dayCarry, diff, fuel).value.sol, s.(day := day + diff))
    ensures !NearestDay(S, day, s, dayTmp, dayCarry, diff, fuel).value.same ==>
              FirstTime(S, NearestDay(S, day, s, dayTmp, dayCarry, diff, fuel).value.sol)
  {
    SettleFacts(S, day, s.(day := day + diff), fuel - 1);
  }

  /** NearestDay takes the listed day of month, which comes first. */
  lemma NearestDayListed(S: Schedule, day: int, s: DateTime, dayTmp: int, dayCarry: bool, diff: int, fuel: nat)
    requires WellFormed(S) && InM(S, s) && !(DayOnly(S) && !WeekdayOnly(S))
    requires 0 <= diff && WeekdayListed(S, s.(day := day + diff))
    requires dayTmp in S.days && (!dayCarry ==> dayTmp >= day)
    requires !WeekdayOnly(S) && !dayCarry && dayTmp - day <= diff
    requires NearestDay(S, day, s, dayTmp, dayCarry, diff, fuel).Ok?
    ensures SameDate(NearestDay(S, day, s, dayTmp, dayCarry, diff, fuel).value.sol, s.(day := dayTmp))
    ensures !NearestDay(S, day, s, dayTmp, dayCarry, diff, fuel).value.same ==>
              FirstTime(S, NearestDay(S, day, s, dayTmp, dayCarry, diff, fuel).value.sol)
  {
    SettleFacts(S, day, s.(day := dayTmp), fuel - 1);
  }

  /**
   * With the weekdays taking part (and no 0 among them), when the day
   * `__next_day` settles on lies in the month it started in, it is the first
   * day from `day` on that satisfies the day rule: the nearer of the listed
   * day of month and the listed weekday, the weekday when the day of month
   * carried. A moved day starts at the first listed hour and minute.
   */
  lemma WeekdayChoiceEarliest(S: Schedule, day: int, s: DateTime, dayTmp: int, dayCarry: bool, fuel: nat, r: Step)
    requires WellFormed(S) && InM(S, s) && !DayOnly(S) && 0 !in S.weekdays
    requires ValidDate(s.year, s.month, day) && ValidDate(s.year, s.month, dayTmp)
    requires NextTime(S.days, day) == Ok(Pick(dayTmp, dayCarry))
    requires WeekdayChoice(S, day, s, dayTmp, dayCarry, fuel) == Ok(r)
    ensures EarliestInMonth(S, s, day, r)
  {
    var diff := WeekdayDiff(S, DayOfWeek(s.year, s.month, day)).value;
    WeekdayStep(S, s, day, diff);
    if day + diff <= DaysInMonth(s.year, s.month) {
      WeekdayGap(S, s, day, diff);
      NearestDayFacts(S, day, s, dayTmp, dayCarry, diff, fuel - 1, r);
    } else if WeekdayOnly(S) {
      assert MonthBefore(s, r.sol);
    } else {
      DayTailEarliest(S, day, s, dayTmp, dayCarry, diff, fuel - 1, r);
    }
  }

  /**
   * When the listed weekday lies beyond the month, the listed day of month
   * taken instead is the first day from `day` on that satisfies the day rule.
   */
  lemma DayTailEarliest(S: Schedule, day: int, s: DateTime, dayTmp: int, dayCarry: bool, diff: int, fuel: nat, r: Step)
    requires WellFormed(S) && InM(S, s) && !DayOnly(S) && !WeekdayOnly(S) && 0 !in S.weekdays
    requires ValidDate(s.year, s.month, day) && ValidDate(s.year, s.month, dayTmp)
    requires NextTime(S.days, day) == Ok(Pick(dayTmp, dayCarry))
    requires WeekdayDiff(S, DayOfWeek(s.year, s.month, day)) == Ok(diff)
    requires day + diff > DaysInMonth(s.year, s.month)
    requires DayTail(S, day, s, dayTmp, dayCarry, fuel) == Ok(r)
    ensures EarliestInMonth(S, s, day, r)
  {
    DayTailFacts(S, day, s, dayTmp, dayCarry, fuel);
    if !dayCarry {
      WeekdayGap(S, s, day, diff);
      assert r.sol.day == dayTmp;
      forall d | day <= d < dayTmp
        ensures !DayMatches(S, s.(day := d))
      {
        assert d !in S.days;
        assert !WeekdayListed(S, s.(day := d));
      }
    } else {
      assert MonthBefore(s, r.sol);
    }
  }

  /** The day NearestDay settles on has no run day before it, given the gap before the weekday. */
  lemma NearestDayFacts(S: Schedule, day: int, s: DateTime, dayTmp: int, dayCarry: bool, diff: int, fuel: nat, r: Step)
    requires WellFormed(S) && InM(S, s) && !DayOnly(S)
    requires 0 <= diff && WeekdayListed(S, s.(day := day + diff))
    requires NextTime(S.days, day) == Ok(Pick(dayTmp, dayCarry)) && (!dayCarry ==> dayTmp >= day)
    requires forall d :: day <= d < day + diff ==> !WeekdayListed(S, s.(day := d))
    requires NearestDay(S, day, s, dayTmp, dayCarry, diff, fuel) == Ok(r)
    ensures r.sol.year == s.year && r.sol.month == s.month && EarliestInMonth(S, s, day, r)
  {
    NearestDayPick(S, day, s, dayTmp, dayCarry, diff, fuel);
    forall d | day <= d < r.sol.day
      ensures !DayMatches(S, s.(day := d))
    {
      assert !WeekdayListed(S, s.(day := d));
      assert !WeekdayOnly(S) ==> d !in S.days;
    }
  }

  /**
   * When the day `__next_day`'s choice settles on lies in the month it
   * started in, no earlier day from `day` on satisfies the day rule (no 0
   * among the weekdays when they take part).
   */
  lemma DayChoiceEarliest(S: Schedule, day: int, s: DateTime, dayTmp: int, dayCarry: bool, fuel: nat, r: Step)
    requires WellFormed(S) && InM(S, s) && (!DayOnly(S) ==> 0 !in S.weekdays)
    requires ValidDate(s.year, s.month, day) && ValidDate(s.year, s.month, dayTmp)
    requires NextTime(S.days, day) == Ok(Pick(dayTmp, dayCarry))
    requires DayChoice(S, day, s, dayTmp, dayCarry, fuel) == Ok(r)
    ensures EarliestInMonth(S, s, day, r)
  {
    if DayOnly(S) {
      DayTailFacts(S, day, s, dayTmp, dayCarry, fuel - 1);
    } else {
      WeekdayChoiceEarliest(S, day, s, dayTmp, dayCarry, fuel - 1, r);
    }
  }

  /** `__next_day(day, sol)`, when it stays in the month of `sol`, lands on the first run day from `day` on. */
  lemma NextDayEarliest(S: Schedule, day: int, s: DateTime, fuel: nat, r: Step)
    requires WellFormed(S) && InM(S, s) && (!DayOnly(S) ==> 0 !in S.weekdays)
    requires NextDay(S, day, s, fuel) == Ok(r)
    ensures EarliestInMonth(S, s, day, r)
  {
    if ValidDate(s.year, s.month, day) && NextTime(S.days, day).Ok?
       && ValidDate(s.year, s.month, NextTime(S.days, day).value.value) {
      NextDayHereEarliest(S, day, s, fuel, r);
    } else {
      NextDayMovesOn(S, day, s, fuel);
    }
  }

  /** When the day and the listed day offered for it exist, the choice of day starts from `day` itself. */
  lemma NextDayHereEarliest(S: Schedule, day: int, s: DateTime, fuel: nat, r: Step)
    requires WellFormed(S) && InM(S, s) && (!DayOnly(S) ==> 0 !in S.weekdays)
    requires ValidDate(s.year, s.month, day) && NextTime(S.days, day).Ok?
    requires ValidDate(s.year, s.month, NextTime(S.days, day).value.value)
    requires NextDay(S, day, s, fuel) == Ok(r)
    ensures EarliestInMonth(S, s, day, r)
  {
    var p := NextTime(S.days, day).value;
    assert fuel > 1;
    NextDayHere(S, day, s, fuel);
    DayChoiceEarliest(S, day, s, p.value, p.carry, fuel - 1, r);
  }

  /** When the day and the listed day offered for it exist, `__next_day` is the choice of day from there. */
  lemma NextDayHere(S: Schedule, day: int, s: DateTime, fuel: nat)
    requires WellFormed(S) && InM(S, s) && fuel > 1
    requires ValidDate(s.year, s.month, day) && NextTime(S.days, day).Ok?
    requires ValidDate(s.year, s.month, NextTime(S.days, day).value.value)
    ensures NextDay(S, day, s, fuel)
            == DayChoice(S, day, s, NextTime(S.days, day).value.value, NextTime(S.days, day).value.carry, fuel - 1)
  {
    DayProbeHere(S, day, s, fuel - 1);
    NextDayUnfold(S, day, s, fuel);
  }

  /** Otherwise `__next_day` lands in a later month. */
  lemma NextDayMovesOn(S: Schedule, day: int, s: DateTime, fuel: nat)
    requires WellFormed(S) && InM(S, s)
    requires !(ValidDate(s.year, s.month, day) && NextTime(S.days, day).Ok?
               && ValidDate(s.year, s.month, NextTime(S.days, day).value.value))
    requires NextDay(S, day, s, fuel).Ok?
    ensures MonthBefore(s, NextDay(S, day, s, fuel).value.sol)
  {
    DayProbeMoves(S, day, s, fuel - 1);
    NextDayUnfold(S, day, s, fuel);
  }

  /**
   * When `time`'s month is listed but its day does not satisfy the day rule,
   * and `next_run(time)` stays in that month, it is the first run of the
   * month after `time`: no day in between satisfies the day rule, and the
   * run is at the first listed hour and minute (no 0 among the weekdays
   * when they take part).
   */
  lemma NextRunEarliest(S: Schedule, t: DateTime)
    requires WellFormed(S) && ValidDateTime(t) && (!DayOnly(S) ==> 0 !in S.weekdays)
    requires InM(S, t) && !DayMatches(S, t)
    requires NextRun(S, t).Ok? && NextRun(S, t).value.year == t.year && NextRun(S, t).value.month == t.month
    ensures var r := NextRun(S, t).value;
            t.day < r.day && NoRunDay(S, t, t.day, r.day) && FirstTime(S, r)
  {
    var s0 := DateTime(t.year, 0, 0, 0, 0);
    var s1 := s0.(month := t.month);
    assert NextMonth(S, t.month, s0, Budget) == Ok(Step(s1, true));
    assert NextRun(S, t) == ResolveDay(S, t, s1);
    ResolveDayAfterDay(S, t, s1);
    var d := NextDay(S, t.day, s1, Budget).value;
    NextDayEarliest(S, t.day, s1, Budget, d);
    assert d.sol.year == t.year && d.sol.month == t.month;
    assert DayMatches(S, t.(day := d.sol.day));
    assert d.sol.day != t.day;
    forall x | t.day <= x < d.sol.day
      ensures !DayMatches(S, t.(day := x))
    {
      assert s1.(day := x).year == t.year && s1.(day := x).month == t.month;
      assert !DayMatches(S, s1.(day := x));
    }
  }

  /** `next_run` never resolves to a date before the one `__next_day` settled on. */
  lemma ResolveDayAfterDay(S: Schedule, t: DateTime, s: DateTime)
    requires WellFormed(S) && ValidDateTime(t) && InM(S, s)
    requires s == DateTime(t.year, t.month, 0, 0, 0)
    requires ResolveDay(S, t, s).Ok?
    ensures NextDay(S, t.day, s, Budget).Ok?
    ensures !DateBefore(ResolveDay(S, t, s).value, NextDay(S, t.day, s, Budget).value.sol)
  {
    var d := NextDay(S, t.day, s, Budget).value;
    if d.same {
      var h := NextHour(S, t.hour, d.sol, Budget).value;
      assert !DateBefore(h.sol, d.sol);
    }
  }

  /**
   * Without a 0 in the weekday list the distance `__next_day` computes is
   * the distance to the nearest listed weekday: under a week, and no listed
   * weekday (counted Monday 0 ... Sunday 6) lies fewer days ahead.
   */
  lemma WeekdayDiffNearest(S: Schedule, dow: int)
    requires WellFormed(S) && 0 <= dow < 7
    requires |S.weekdays| > 0 && 0 !in S.weekdays
    ensures WeekdayDiff(S, dow).Ok? && WeekdayDiff(S, dow).value <= 6
    ensures forall w :: w in S.weekdays ==> WeekdayDiff(S, dow).value <= (CronDow(w) - dow) % 7
  {
    var p := NextTime(S.weekdays, dow + 1).value;
    NearestPick(S.weekdays, dow, p);
  }

  /**
   * Without a 0 in the weekday list, the distance computed from the search
   * answer `p` for weekday count `dow` (Monday 0) is under a week and no
   * listed weekday lies fewer days ahead.
   */
  lemma NearestPick(W: seq<int>, dow: int, p: Pick)
    requires FieldOk(Weekday, W) && 0 !in W && 0 <= dow < 7
    requires NextTime(W, dow + 1) == Ok(p)
    ensures var d := CronDow(p.value) - dow + (if p.carry then 7 else 0);
            d <= 6 && forall w :: w in W ==> d <= (CronDow(w) - dow) % 7
  {
    var d := CronDow(p.value) - dow + (if p.carry then 7 else 0);
    assert W[0] in W;
    assert 1 <= p.value <= 7;
    forall w | w in W ensures d <= (CronDow(w) - dow) % 7 {
      var j :| 0 <= j < |W| && W[j] == w;
      assert W[0] <= w && 1 <= w <= 7;
      var x := w - 1 - dow;
      assert CronDow(w) - dow == x;
      if x >= 0 {
        assert x % 7 == x;
        assert !p.carry && p.value <= w;
      } else {
        assert x % 7 == x + 7;
      }
    }
  }

  /**
   * The Sunday-as-0 anomaly of `__next_day`: with only `0` listed, the
   * search value for a Sunday (weekday 6, as Sunday 2024-01-07 is, see
   * `Weekdays2024`) is 7, which wraps around to 0 and adds a week; from a
   * Monday (weekday 0, as 2024-01-08) the distance is 13 days although the
   * listed Sunday is 6 days ahead.
   */
  lemma SundayZeroSkipsAWeek(S: Schedule)
    requires WellFormed(S) && S.weekdays == [0]
    ensures CronDow(0) == 6
    ensures WeekdayDiff(S, 6) == Ok(7)
    ensures WeekdayDiff(S, 0) == Ok(13)
  {
    assert NextTime([0], 7) == Ok(Pick(0, true));
    assert NextTime([0], 1) == Ok(Pick(0, true));
  }

  // ---------------------------------------------------------------------------
  // Where `next_run` is not the first run after `time`

  /** `next_run` when the month and day of `time` are kept and the hour and minute resolve to `r`. */
  lemma NextRunDayKept(S: Schedule, t: DateTime, d: DateTime, h: DateTime, r: DateTime)
    requires WellFormed(S) && ValidDateTime(t) && InM(S, t)
    requires NextDay(S, t.day, DateTime(t.year, t.month, 0, 0, 0), Budget) == Ok(Step(d, true))
    requires NextHour(S, t.hour, d, Budget) == Ok(Step(h, true))
    requires NextMinute(S, t.minute, h, Budget) == Ok(r) && ValidDateTime(r)
    ensures NextRun(S, t) == Ok(r)
  {
    assert NextMonth(S, t.month, DateTime(t.year, 0, 0, 0, 0), Budget)
           == Ok(Step(DateTime(t.year, t.month, 0, 0, 0), true));
  }

  /** `next_run` when the month of `time` is kept and `__next_day` moves on to `r`. */
  lemma NextRunDayMoved(S: Schedule, t: DateTime, r: DateTime)
    requires WellFormed(S) && ValidDateTime(t) && InM(S, t)
    requires NextDay(S, t.day, DateTime(t.year, t.month, 0, 0, 0), Budget) == Ok(Step(r, false))
    requires ValidDateTime(r)
    ensures NextRun(S, t) == Ok(r)
  {
    assert NextMonth(S, t.month, DateTime(t.year, 0, 0, 0, 0), Budget)
           == Ok(Step(DateTime(t.year, t.month, 0, 0, 0), true));
  }

  /** `__next_day` from the outcome of its search loop and of its choice of day. */
  lemma NextDayFrom(S: Schedule, day: int, s: DateTime, fuel: nat, p: Probe, r: Step)
    requires WellFormed(S) && InM(S, s) && fuel > 0 && DayProbe(S, day, s, fuel - 1) == Ok(p)
    requires DayChoice(S, p.day, p.sol, p.dayTmp, p.dayCarry, fuel - 1) == Ok(r)
    ensures NextDay(S, day, s, fuel) == Ok(r)
  {
  }


  /** The choice of day when the weekday `diff` days on lies in this month. */
  lemma WeekdayChoiceNear(S: Schedule, day: int, s: DateTime, dayTmp: int, dayCarry: bool, fuel: nat, diff: int)
    requires WellFormed(S) && InM(S, s) && !(DayOnly(S) && !WeekdayOnly(S))
    requires ValidDate(s.year, s.month, day) && ValidDate(s.year, s.month, dayTmp)
    requires dayTmp in S.days && (!dayCarry ==> dayTmp >= day) && fuel > 0
    requires WeekdayDiff(S, DayOfWeek(s.year, s.month, day)) == Ok(diff)
    requires day + diff <= DaysInMonth(s.year, s.month)
    requires 0 <= diff && WeekdayListed(S, s.(day := day + diff))
    ensures WeekdayChoice(S, day, s, dayTmp, dayCarry, fuel) == NearestDay(S, day, s, dayTmp, dayCarry, diff, fuel - 1)
  {
  }

  /** `cron.py:316-326`: the weekday is taken when the day of month carried or comes later. */
  lemma NearestDayWeekdayTaken(S: Schedule, day: int, s: DateTime, dayTmp: int, dayCarry: bool, diff: int, fuel: nat)
    requires WellFormed(S) && InM(S, s) && !(DayOnly(S) && !WeekdayOnly(S))
    requires 0 <= diff && WeekdayListed(S, s.(day := day + diff))
    requires dayTmp in S.days && (!dayCarry ==> dayTmp >= day) && fuel > 0
    requires WeekdayOnly(S) || dayCarry || dayTmp - day > diff
    ensures NearestDay(S, day, s, dayTmp, dayCarry, diff, fuel) == Settle(S, day, s.(day := day + diff), fuel - 1)
  {
  }

  /** `0 0,10 1,31 * *` is well formed. */
  lemma NotEarliestSchedule(S: Schedule)
    requires S.minutes == [0] && S.hours == [0, 10] && S.days == [1, 31]
    requires Full(S.months, 1, 12) && Full(S.weekdays, 0, 7)
    ensures WellFormed(S) && S.months[3] == 4 && S.months[4] == 5 && !WeekdayOnly(S)
  {
  }

  /** The search loop of `__next_day(15, ...)` of `0 0,10 1,31 * *` in April 2024 skips to May 1. */
  lemma NotEarliestProbe(S: Schedule)
    requires S.minutes == [0] && S.hours == [0, 10] && S.days == [1, 31]
    requires Full(S.months, 1, 12) && Full(S.weekdays, 0, 7)
    ensures WellFormed(S) && InM(S, DateTime(2024, 4, 0, 0, 0))
    ensures DayProbe(S, 15, DateTime(2024, 4, 0, 0, 0), Budget - 1)
            == Ok(Probe(DateTime(2024, 5, 0, 0, 0), 1, 1, false))
  {
    NotEarliestSchedule(S);
    NextTimeAt(S.days, 15, 1);
    assert NextMonth(S, 5, DateTime(2024, 4, 0, 0, 0), Budget - 2) == Ok(Step(DateTime(2024, 5, 0, 0, 0), true));
    NextTimeAt(S.days, 1, 0);
    DayProbeHere(S, 1, DateTime(2024, 5, 0, 0, 0), Budget - 2);
    NotEarliestOnward(S);
  }

  /** The step of that search from April 15 to the first of the next listed month. */
  lemma NotEarliestOnward(S: Schedule)
    requires WellFormed(S) && InM(S, DateTime(2024, 4, 0, 0, 0))
    requires NextTime(S.days, 15) == Ok(Pick(31, false))
    requires NextMonth(S, 5, DateTime(2024, 4, 0, 0, 0), Budget - 2) == Ok(Step(DateTime(2024, 5, 0, 0, 0), true))
    requires DayProbe(S, 1, DateTime(2024, 5, 0, 0, 0), Budget - 2) == Ok(Probe(DateTime(2024, 5, 0, 0, 0), 1, 1, false))
    ensures DayProbe(S, 15, DateTime(2024, 4, 0, 0, 0), Budget - 1)
            == Ok(Probe(DateTime(2024, 5, 0, 0, 0), 1, 1, false))
  {
    assert DaysInMonth(2024, 4) == 30;
    assert ValidDate(2024, 4, 15) && !ValidDate(2024, 4, 31);
  }

  /** `__next_day(15, ...)` of `0 0,10 1,31 * *` in April 2024 lands on May 1 as an unchanged day. */
  lemma NotEarliestDay(S: Schedule)
    requires S.minutes == [0] && S.hours == [0, 10] && S.days == [1, 31]
    requires Full(S.months, 1, 12) && Full(S.weekdays, 0, 7)
    ensures WellFormed(S) && InM(S, DateTime(2024, 4, 0, 0, 0))
    ensures NextDay(S, 15, DateTime(2024, 4, 0, 0, 0), Budget) == Ok(Step(DateTime(2024, 5, 1, 0, 0), true))
  {
    NotEarliestSchedule(S);
    var s1 := DateTime(2024, 4, 0, 0, 0);
    var s2 := DateTime(2024, 5, 0, 0, 0);
    NotEarliestProbe(S);
    NextDayFrom(S, 15, s1, Budget, Probe(s2, 1, 1, false), Step(DateTime(2024, 5, 1, 0, 0), true));
  }

  /**
   * `0 0,10 1,31 * *` at 2024-04-15 10:00: `__next_day` skips the missing
   * April 31 to May 1 and reports the day unchanged (1 is the day it was
   * asked for in the new month), so the hour 10 of `time` is kept and the
   * result is 2024-05-01 10:00, although 2024-05-01 00:00 is a run.
   */
  lemma NextRunNotEarliest(S: Schedule)
    requires S.minutes == [0] && S.hours == [0, 10] && S.days == [1, 31]
    requires Full(S.months, 1, 12) && Full(S.weekdays, 0, 7)
    ensures WellFormed(S)
    ensures NextRun(S, DateTime(2024, 4, 15, 10, 0)) == Ok(DateTime(2024, 5, 1, 10, 0))
    ensures Scheduled(S, DateTime(2024, 5, 1, 0, 0))
    ensures Before(DateTime(2024, 4, 15, 10, 0), DateTime(2024, 5, 1, 0, 0))
            && Before(DateTime(2024, 5, 1, 0, 0), DateTime(2024, 5, 1, 10, 0))
  {
    NotEarliestSchedule(S);
    NotEarliestDay(S);
    var d := DateTime(2024, 5, 1, 0, 0);
    NextRunDayKept(S, DateTime(2024, 4, 15, 10, 0), d, d.(hour := 10), d.(hour := 10));
  }

  /** `0 0 31 * 1` is well formed and only the weekdays decide in months without a 31st. */
  lemma WeekdayMatchSchedule(S: Schedule)
    requires S.minutes == [0] && S.hours == [0] && S.days == [31]
    requires Full(S.months, 1, 12) && S.weekdays == [1]
    ensures WellFormed(S) && S.months[3] == 4 && S.months[4] == 5 && !WeekdayOnly(S) && !DayOnly(S)
  {
  }

  /** From May 1 2024, a Wednesday, the listed Monday is 5 days ahead. */
  lemma WeekdayMatchDiff(S: Schedule)
    requires WellFormed(S) && S.weekdays == [1]
    ensures WeekdayDiff(S, 2) == Ok(5)
  {
    assert NextTime([1], 3) == Ok(Pick(1, true));
  }

  /** The search loop of `__next_day(1, ...)` of `0 0 31 * 1` in April 2024 skips to May, offering the 31st. */
  lemma WeekdayMatchProbe(S: Schedule)
    requires S.minutes == [0] && S.hours == [0] && S.days == [31]
    requires Full(S.months, 1, 12) && S.weekdays == [1]
    ensures WellFormed(S) && InM(S, DateTime(2024, 4, 0, 0, 0))
    ensures DayProbe(S, 1, DateTime(2024, 4, 0, 0, 0), Budget - 1)
            == Ok(Probe(DateTime(2024, 5, 0, 0, 0), 1, 31, false))
  {
    WeekdayMatchSchedule(S);
    NextTimeAt(S.days, 1, 0);
    assert NextMonth(S, 5, DateTime(2024, 4, 0, 0, 0), Budget - 2) == Ok(Step(DateTime(2024, 5, 0, 0, 0), true));
    DayProbeHere(S, 1, DateTime(2024, 5, 0, 0, 0), Budget - 2);
  }

  /** `__next_day(1, ...)` of `0 0 31 * 1` in April 2024 lands on Monday May 6 as a moved day. */
  lemma WeekdayMatchDay(S: Schedule)
    requires S.minutes == [0] && S.hours == [0] && S.days == [31]
    requires Full(S.months, 1, 12) && S.weekdays == [1]
    ensures WellFormed(S) && InM(S, DateTime(2024, 4, 0, 0, 0))
    ensures NextDay(S, 1, DateTime(2024, 4, 0, 0, 0), Budget) == Ok(Step(DateTime(2024, 5, 6, 0, 0), false))
  {
    WeekdayMatchSchedule(S);
    var s1 := DateTime(2024, 4, 0, 0, 0);
    var s2 := DateTime(2024, 5, 0, 0, 0);
    var r := Step(DateTime(2024, 5, 6, 0, 0), false);
    NextTimeAt(S.days, 1, 0);
    WeekdayMatchProbe(S);
    WeekdayMatchChoice(S);
    NextDayFrom(S, 1, s1, Budget, Probe(s2, 1, 31, false), r);
  }

  /** The choice of day of `0 0 31 * 1` from May 1 2024: the Monday five days on, before the 31st. */
  lemma WeekdayMatchChoice(S: Schedule)
    requires S.minutes == [0] && S.hours == [0] && S.days == [31]
    requires Full(S.months, 1, 12) && S.weekdays == [1]
    ensures WellFormed(S) && InM(S, DateTime(2024, 5, 0, 0, 0))
    ensures DayChoice(S, 1, DateTime(2024, 5, 0, 0, 0), 31, false, Budget - 1)
            == Ok(Step(DateTime(2024, 5, 6, 0, 0), false))
  {
    WeekdayMatchSchedule(S);
    WeekdayMatchDiff(S);
    Weekdays2024();
    var s2 := DateTime(2024, 5, 0, 0, 0);
    var r := DateTime(2024, 5, 6, 0, 0);
    WeekdayStep(S, s2, 1, 5);
    WeekdayChoiceNear(S, 1, s2, 31, false, Budget - 2, 5);
    NearestDayWeekdayTaken(S, 1, s2, 31, false, 5, Budget - 3);
    SettleMoved(S, 1, s2.(day := 6), Budget - 4);
  }

  /**
   * `0 0 31 * 1` at Monday 2024-04-01 00:00, a run (its weekday is listed):
   * `__next_day` first looks for the listed day 31, which April lacks, moves
   * to May and takes the Monday nearest to May 1, so `next_run` is
   * 2024-05-06 00:00 rather than `time` itself.
   */
  lemma WeekdayMatchSkipped(S: Schedule)
    requires S.minutes == [0] && S.hours == [0] && S.days == [31]
    requires Full(S.months, 1, 12) && S.weekdays == [1]
    ensures WellFormed(S)
    ensures Scheduled(S, DateTime(2024, 4, 1, 0, 0))
    ensures NextRun(S, DateTime(2024, 4, 1, 0, 0)) == Ok(DateTime(2024, 5, 6, 0, 0))
  {
    WeekdayMatchSchedule(S);
    Weekdays2024();
    assert CronDow(1) == DayOfWeek(2024, 4, 1);
    WeekdayMatchDay(S);
    NextRunDayMoved(S, DateTime(2024, 4, 1, 0, 0), DateTime(2024, 5, 6, 0, 0));
  }

  /** `0 0 1 * 0` is well formed and both fields decide. */
  lemma SundayZeroSchedule(S: Schedule)
    requires S.minutes == [0] && S.hours == [0] && S.days == [1]
    requires Full(S.months, 1, 12) && S.weekdays == [0]
    ensures WellFormed(S) && S.months[0] == 1 && !WeekdayOnly(S) && !DayOnly(S)
  {
  }

  /** The choice of day of `0 0 1 * 0` from Sunday January 7 2024, the listed day having carried: a week on. */
  lemma SundayZeroChoice(S: Schedule)
    requires S.minutes == [0] && S.hours == [0] && S.days == [1]
    requires Full(S.months, 1, 12) && S.weekdays == [0]
    ensures WellFormed(S) && InM(S, DateTime(2024, 1, 0, 0, 0))
    ensures DayChoice(S, 7, DateTime(2024, 1, 0, 0, 0), 1, true, Budget - 1)
            == Ok(Step(DateTime(2024, 1, 14, 0, 0), false))
  {
    SundayZeroSchedule(S);
    SundayZeroSkipsAWeek(S);
    Weekdays2024();
    var s1 := DateTime(2024, 1, 0, 0, 0);
    var r := DateTime(2024, 1, 14, 0, 0);
    WeekdayStep(S, s1, 7, 7);
    WeekdayChoiceNear(S, 7, s1, 1, true, Budget - 2, 7);
    NearestDayWeekdayTaken(S, 7, s1, 1, true, 7, Budget - 3);
    SettleMoved(S, 7, s1.(day := 14), Budget - 4);
  }

  /**
   * `0 0 1 * 0` at Sunday 2024-01-07 00:00, a run (Sunday listed as 0):
   * `__next_day` searches the weekdays for 7, wraps to 0 a week on, and
   * because the day of month carried takes that weekday, 2024-01-14.
   */
  lemma SundayZeroMatchSkipped(S: Schedule)
    requires S.minutes == [0] && S.hours == [0] && S.days == [1]
    requires Full(S.months, 1, 12) && S.weekdays == [0]
    ensures WellFormed(S)
    ensures Scheduled(S, DateTime(2024, 1, 7, 0, 0))
    ensures NextRun(S, DateTime(2024, 1, 7, 0, 0)) == Ok(DateTime(2024, 1, 14, 0, 0))
  {
    SundayZeroSchedule(S);
    Weekdays2024();
    assert CronDow(0) == DayOfWeek(2024, 1, 7);
    var s1 := DateTime(2024, 1, 0, 0, 0);
    assert NextTime(S.days, 7) == Ok(Pick(1, true));
    DayProbeHere(S, 7, s1, Budget - 1);
    SundayZeroChoice(S);
    NextDayFrom(S, 7, s1, Budget, Probe(s1, 7, 1, true), Step(DateTime(2024, 1, 14, 0, 0), false));
    NextRunDayMoved(S, DateTime(2024, 1, 7, 0, 0), DateTime(2024, 1, 14, 0, 0));
  }

  // ---------------------------------------------------------------------------
  // With no day of month listed, `next_run` raises

  /**
   * With an empty day list `next_run` fails with `EmptyList` (the
   * `IndexError` of `time_list[0]`, cron.py:221): whether or not the month
   * of `time` is listed, the resolver reaches `__next_day`, whose search
   * loop calls `__next_time` on the days (cron.py:292).
   */
  lemma NextRunNoDays(S: Schedule, t: DateTime)
    requires WellFormed(S) && ValidDateTime(t) && |S.days| == 0
    ensures NextRun(S, t) == Err(EmptyList)
  {
    var s0 := DateTime(t.year, 0, 0, 0, 0);
    match NextTime(S.months, t.month)
    case Err(e) =>
      assert NextTime(S.months, t.month) == Err(EmptyList);
      assert NextMonth(S, t.month, s0, Budget) == Err(EmptyList);
    case Ok(p) =>
      var s1 := s0.(year := if p.carry then s0.year + 1 else s0.year, month := p.value);
      if p.value != t.month {
        assert NextTime(S.days, 1) == Err(EmptyList);
        assert DayProbe(S, 1, s1, Budget - 3) == Err(EmptyList);
        assert NextDay(S, 1, s1, Budget - 2) == Err(EmptyList);
        assert EnterMonth(S, s1, Budget - 1) == Err(EmptyList);
        assert NextMonth(S, t.month, s0, Budget) == Err(EmptyList);
      } else {
        assert NextMonth(S, t.month, s0, Budget) == Ok(Step(s1, true));
        assert NextTime(S.days, t.day) == Err(EmptyList);
        assert DayProbe(S, t.day, s1, Budget - 1) == Err(EmptyList);
        assert NextDay(S, t.day, s1, Budget) == Err(EmptyList);
      }
  }
}
