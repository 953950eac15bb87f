/**
 * `SimpleCrontabEntry` itself: the object that keeps the entry text, the
 * five expanded fields and the expiration, parses a new entry in place
 * (`set_value`), and answers `next_run`, `prev_run` and `is_expired` for a
 * given time. Times are minute-resolution `DateTime`s and the expiration is
 * a whole number of minutes.
 */
module Crontab {
  import opened Wrappers
  import opened Text
  import opened Calendar
  import opened CronFields
  import opened CronSearch
  import opened CronNext
  import opened CronPrev
  import opened CronParse

  /** `begin <= time <= begin + timedelta(minutes=e)`, compared as the source compares datetimes. */
  predicate InWindow(time: DateTime, begin: DateTime, e: int)
    requires ValidDate(begin.year, begin.month, begin.day)
  {
    !Before(time, begin) && !Before(AddMinutes(begin, e), time)
  }

  /**
   * `is_expired(time)` for fields `S` and expiration `e` minutes: not
   * expired while `time` lies in the window after the next run or in the
   * window after the previous run. A failure of either walk is passed on.
   */
  function Expired(S: Schedule, e: int, time: DateTime): (r: Result<bool, Fault>)
    requires WellFormed(S) && ValidDateTime(time)
    ensures r.Err? <==> CronPrev.PrevRun(S, time).Err?
  {
    var nextBeg :- CronNext.NextRun(S, time);
    var prevBeg :- CronPrev.PrevRun(S, time);
    Ok(!(InWindow(time, nextBeg, e) || InWindow(time, prevBeg, e)))
  }

  /** The window `[begin, begin + e]` on the linear minute scale. */
  lemma InWindowMinutes(time: DateTime, begin: DateTime, e: int)
    requires ValidDateTime(time) && ValidDateTime(begin)
    ensures InWindow(time, begin, e) <==> Minutes(begin) <= Minutes(time) <= Minutes(begin) + e
  {
    BeforeIsEarlier(time, begin);
    AddMinutesMinutes(begin, e);
    BeforeIsEarlier(AddMinutes(begin, e), time);
  }

  /**
   * What `is_expired` answers, on the linear minute scale: expired exactly
   * when `time` lies in neither window of `e` minutes, the one opening at
   * the next run and the one opening at the previous run; a failing walk
   * is passed on, the forward walk first.
   */
  lemma ExpiredMeaning(S: Schedule, e: int, time: DateTime)
    requires WellFormed(S) && ValidDateTime(time)
    ensures CronNext.NextRun(S, time).Err? ==> Expired(S, e, time) == Err(CronNext.NextRun(S, time).error)
    ensures CronNext.NextRun(S, time).Ok? && CronPrev.PrevRun(S, time).Err? ==> Expired(S, e, time) == Err(CronPrev.PrevRun(S, time).error)
    ensures CronNext.NextRun(S, time).Ok? && CronPrev.PrevRun(S, time).Ok? ==>
              var n := Minutes(CronNext.NextRun(S, time).value);
              var p := Minutes(CronPrev.PrevRun(S, time).value);
              var t := Minutes(time);
              Expired(S, e, time) == Ok(!((n <= t <= n + e) || (p <= t <= p + e)))
  {
    if CronNext.NextRun(S, time).Ok? && CronPrev.PrevRun(S, time).Ok? {
      InWindowMinutes(time, CronNext.NextRun(S, time).value, e);
      InWindowMinutes(time, CronPrev.PrevRun(S, time).value, e);
    }
  }

  /**
   * The window after the next run holds `time` only when `time` is itself
   * a run: otherwise `next_run(time)` lies strictly later and only the
   * window after the previous run can keep the entry from expiring.
   */
  lemma ExpiredBetweenRuns(S: Schedule, e: int, time: DateTime)
    requires WellFormed(S) && ValidDateTime(time)
    requires CronNext.NextRun(S, time).Ok? && CronNext.NextRun(S, time).value != time
    requires CronPrev.PrevRun(S, time).Ok?
    ensures Expired(S, e, time) == Ok(!InWindow(time, CronPrev.PrevRun(S, time).value, e))
  {
    var n := CronNext.NextRun(S, time).value;
    BeforeIsEarlier(n, time);
    BeforeIsEarlier(time, n);
    if Minutes(n) == Minutes(time) {
      OrdinalInjective(n, time);
    }
    InWindowMinutes(time, n, e);
  }

  /** At a scheduled minute, with a window of no fewer than zero minutes, the entry is not expired. */
  lemma ExpiredAtRun(S: Schedule, e: int, time: DateTime)
    requires WellFormed(S) && ValidDateTime(time) && e >= 0
    requires CronNext.NextRun(S, time) == Ok(time) && CronPrev.PrevRun(S, time).Ok?
    ensures Expired(S, e, time) == Ok(false)
  {
    InWindowMinutes(time, time, e);
  }

  /** A longer expiration never turns a live entry into an expired one. */
  lemma ExpiredMonotone(S: Schedule, e1: int, e2: int, time: DateTime)
    requires WellFormed(S) && ValidDateTime(time) && e1 <= e2
    ensures Expired(S, e2, time) == Ok(true) ==> Expired(S, e1, time) == Ok(true)
    ensures Expired(S, e1, time) == Ok(false) ==> Expired(S, e2, time) == Ok(false)
  {
    ExpiredMeaning(S, e1, time);
    ExpiredMeaning(S, e2, time);
  }

  /** The `SimpleCrontabEntry` object. */
  class SimpleCrontabEntry {
    /** `self.data`: the text of the last entry given to `set_value`. */
    var data: string
    /** `self.fields` once every field passed `checkfield`; `None` after a parse that failed part way. */
    var fields: Option<Schedule>
    /** `self.expiration`, in minutes. */
    var expiration: int

    predicate Valid()
      reads this
    {
      fields.Some? ==> WellFormed(fields.value)
    }

    /**
     * `SimpleCrontabEntry(entry, expiration)` up to the point where it
     * would raise: the fields are those of `entry` when it parses.
     */
    constructor (entry: string, expiration: int)
      ensures Valid()
      ensures data == entry && this.expiration == expiration
      ensures fields == if ParseEntry(entry).Ok? then Some(ParseEntry(entry).value) else None
    {
      data := entry;
      fields := None;
      this.expiration := 0;
      new;
      var _ := SetValue(entry);
      SetExpiration(expiration);
    }

    /** `set_expiration(val)`: a window of `val` minutes. */
    method SetExpiration(val: int)
      modifies this
      ensures expiration == val
      ensures data == old(data) && fields == old(fields)
    {
      expiration := val;
    }

    /**
     * `set_value(entry)` with `_is_valid`: the text is kept whatever
     * happens; an entry without exactly five tokens raises before the
     * fields are touched; otherwise each token goes through `checkfield`
     * and the first bad one raises.
     */
    method SetValue(entry: string) returns (r: Result<Schedule, EntryError>)
      modifies this
      ensures r == ParseEntry(entry)
      ensures data == entry && expiration == old(expiration)
      ensures r.Ok? ==> fields == Some(r.value)
      ensures r == Err(WrongFieldCount) ==> fields == old(fields)
      ensures r.Err? && r != Err(WrongFieldCount) ==> fields == None
      ensures old(Valid()) ==> Valid()
    {
      data := entry;
      var tokens := Tokens(entry);
      if |tokens| != 5 {
        return Err(WrongFieldCount);
      }
      var parsed := IsValid(tokens);
      if parsed.Err? {
        fields := None;
        return Err(parsed.error);
      }
      var fs := parsed.value;
      r := Ok(Schedule(fs[0], fs[1], fs[2], fs[3], fs[4]));
      fields := Some(r.value);
    }

    /** `next_run(time)`: the first scheduled minute at or after `time`. */
    method NextRun(time: DateTime) returns (r: Result<DateTime, Fault>)
      requires Valid() && fields.Some? && ValidDateTime(time)
      ensures r == CronNext.NextRun(fields.value, time)
    {
      r := CronNext.NextRun(fields.value, time);
    }

    /**
     * `prev_run(time)`: from `next_run(time)`, the minute stage, the hour
     * stage, then the day and month loop with its inner search for a listed
     * day, as cron.py:398-532 runs them.
     */
    method PrevRun(time: DateTime) returns (r: Result<DateTime, Fault>)
      requires Valid() && fields.Some? && ValidDateTime(time)
      ensures r == CronPrev.PrevRun(fields.value, time)
    {
      var next := NextRun(time);
      if next.Err? {
        return Err(next.error);
      }
      r := PrevFrom(fields.value, next.value);
    }

    /**
     * `is_expired(time)`. The source's guard `self.expiration == 0` compares
     * a `timedelta` with an integer, which is never equal, so it never
     * raises and has no counterpart here.
     */
    method IsExpired(time: DateTime) returns (r: Result<bool, Fault>)
      requires Valid() && fields.Some? && ValidDateTime(time)
      ensures r == Expired(fields.value, expiration, time)
    {
      var nextBeg := NextRun(time);
      if nextBeg.Err? {
        return Err(nextBeg.error);
      }
      var nextEnd := AddMinutes(nextBeg.value, expiration);
      var prevBeg := PrevRun(time);
      if prevBeg.Err? {
        return Err(prevBeg.error);
      }
      var prevEnd := AddMinutes(prevBeg.value, expiration);
      assert Expired(fields.value, expiration, time)
          == Ok(!(InWindow(time, nextBeg.value, expiration) || InWindow(time, prevBeg.value, expiration)));
      if (!Before(time, nextBeg.value) && !Before(nextEnd, time)) || (!Before(time, prevBeg.value) && !Before(prevEnd, time)) {
        return Ok(false);
      }
      return Ok(true);
    }
  }

  /**
   * Static form of the constructor that raises: `SimpleCrontabEntry(entry,
   * expiration)` gives an object exactly when the entry parses, and the
   * parser's error otherwise.
   */
  method Create(entry: string, expiration: int) returns (r: Result<SimpleCrontabEntry, EntryError>)
    ensures r.Err? <==> ParseEntry(entry).Err?
    ensures r.Err? ==> r.error == ParseEntry(entry).error
    ensures r.Ok? ==> fresh(r.value) && r.value.Valid() && r.value.data == entry
                      && r.value.fields == Some(ParseEntry(entry).value) && r.value.expiration == expiration
  {
    var c := new SimpleCrontabEntry(entry, expiration);
    if c.fields.None? {
      return Err(ParseEntry(entry).error);
    }
    r := Ok(c);
  }

  /**
   * `_is_valid` on five tokens: `checkfield` on each field in turn, the
   * first bad field raising.
   */
  method IsValid(tokens: seq<string>) returns (r: Result<seq<seq<int>>, EntryError>)
    requires |tokens| == 5
    ensures r == GatherFields(FieldResults(tokens), 0)
  {
    ghost var results := FieldResults(tokens);
    var parsed: seq<seq<int>> := [];
    ThenFieldsEmpty(GatherFields(results, 0));
    for i := 0 to 5
      invariant ThenFields(parsed, GatherFields(results, i)) == GatherFields(results, 0)
    {
      var field := CheckField(tokens[i], KindAt(i));
      assert field == results[i];
      GatherFieldsStep(results, i, parsed);
      if field.Err? {
        return Err(BadField(KindAt(i), field.error));
      }
      parsed := parsed + [field.value];
    }
    assert parsed + [] == parsed;
    r := Ok(parsed);
  }

  /**
   * `prev_run` from `base` (= `next_run(time)`, on a listed minute and
   * hour): the minute stage, the hour stage, then the day and month loop.
   */
  method PrevFrom(S: Schedule, start: DateTime) returns (r: Result<DateTime, Fault>)
    requires WellFormed(S) && ValidDateTime(start) && start.minute in S.minutes && start.hour in S.hours
    ensures r == PrevRunFrom(S, start)
  {
    var base := start;
    // `list.index` of a listed minute and hour cannot raise
    var pm := PrevTime(S.minutes, base.minute);
    AddMinutesWithinHour(base, pm.value.value);
    base := AddMinutes(base, -(base.minute - pm.value.value));
    if !pm.value.carry {
      return Ok(base);
    }
    var ph := PrevTime(S.hours, base.hour);
    AddHoursWithinDay(base, ph.value.value);
    base := AddHours(base, -(base.hour - ph.value.value));
    if !ph.value.carry {
      return Ok(base);
    }
    r := DayMonthLoop(S, base);
  }

  /** cron.py:419-428: step back a day at a time until `__prev_time` finds the day of month in the list. */
  method SeekDay(days: seq<int>, t: DateTime) returns (r: Result<DateTime, Fault>)
    requires ValidDateTime(t)
    ensures r == SeekListedDay(days, t, SeekBound)
  {
    var tmpBase := t;
    var steps := 0;
    while tmpBase.day !in days
      invariant 0 <= steps <= SeekBound && ValidDateTime(tmpBase)
      invariant SeekListedDay(days, tmpBase, SeekBound - steps) == SeekListedDay(days, t, SeekBound)
      decreases SeekBound - steps
    {
      if steps == SeekBound {
        return Err(SearchLimit);
      }
      AddDaysBackOne(tmpBase);
      tmpBase := AddDays(tmpBase, -1);
      steps := steps + 1;
    }
    r := Ok(tmpBase);
  }

  /**
   * The outer `while True` of cron.py:418-530: the day stage, then, when
   * it carries, the month stage; a month stage that raises moves
   * `tmp_base` to the end of its previous month and runs one more pass.
   */
  method DayMonthLoop(S: Schedule, start: DateTime) returns (r: Result<DateTime, Fault>)
    requires WellFormed(S) && ValidDateTime(start)
    ensures r == DayMonthWalk(S, start, start, false, true)
  {
    var base := start;
    var tmpBase := start;
    var previousMonths := false;
    var carry := true;
    while true
      invariant ValidDateTime(base) && ValidDateTime(tmpBase)
      invariant tmpBase.hour == base.hour && tmpBase.minute == base.minute
      invariant DayMonthWalk(S, base, tmpBase, previousMonths, carry) == DayMonthWalk(S, start, start, false, true)
      decreases if previousMonths then 0 else 1
    {
      var day := DayPass(S, base, tmpBase, previousMonths, carry);
      if day.Err? {
        return Err(day.error);
      }
      tmpBase := day.value.tmp;
      base := AddDays(base, -day.value.step.days);
      if !day.value.step.carry {
        return Ok(base);
      }
      // month
      if previousMonths {
        return Ok(tmpBase);
      }
      var move := MonthStage(S, base, tmpBase, day.value.step.carry);
      if move.Moved? {
        return Ok(move.t);
      }
      AddDaysBackToEnd(tmpBase);
      tmpBase := AddDays(tmpBase, -tmpBase.day);
      previousMonths := true;
      carry := move.carry;
    }
  }

  /**
   * The day stage of one pass (cron.py:419-498): the search for a listed
   * day, `__prev_time` on the days and on the weekdays, and the weekday
   * rule; the pass goes on with what it settled.
   */
  method DayPass(S: Schedule, base: DateTime, tmpBase: DateTime, previousMonths: bool, carry: bool) returns (r: Result<Stage, Fault>)
    requires WellFormed(S) && ValidDateTime(base) && ValidDateTime(tmpBase)
    requires tmpBase.hour == base.hour && tmpBase.minute == base.minute
    ensures r.Err? ==> DayMonthWalk(S, base, tmpBase, previousMonths, carry) == Err(r.error)
    ensures r.Ok? ==> ValidDateTime(r.value.tmp) && r.value.tmp.hour == base.hour && r.value.tmp.minute == base.minute
    ensures r.Ok? ==> DayMonthWalk(S, base, tmpBase, previousMonths, carry) == AfterDayStage(S, base, r.value, previousMonths)
  {
    var seek := SeekDay(S.days, tmpBase);
    if seek.Err? {
      WalkSearchFails(S, base, tmpBase, previousMonths, carry);
      return Err(seek.error);
    }
    WalkSeekFound(S, base, tmpBase, seek.value);
    var pw := PrevTime(S.weekdays, DayOfWeek(base.year, base.month, base.day) + 1);
    if pw.Err? {
      WalkWeekdayFails(S, base, tmpBase, seek.value, previousMonths, carry);
      return Err(pw.error);
    }
    WalkPass(S, base, tmpBase, seek.value, pw.value, previousMonths, carry);
    var pd := PrevTime(S.days, seek.value.day);
    r := Ok(Stage(seek.value, WeekdayRule(S, base, DayBorrow(base, pd.value), pw.value, carry)));
  }

  // ---------------------------------------------------------------------------
  // Proof steps of the methods

  /** A pass whose day search gives up fails with the search's error. */
  lemma WalkSearchFails(S: Schedule, base: DateTime, tmp: DateTime, previousMonths: bool, carry: bool)
    requires WellFormed(S) && ValidDateTime(base) && ValidDateTime(tmp)
    requires tmp.hour == base.hour && tmp.minute == base.minute
    requires SeekListedDay(S.days, tmp, SeekBound).Err?
    ensures DayMonthWalk(S, base, tmp, previousMonths, carry) == Err(SeekListedDay(S.days, tmp, SeekBound).error)
  {
  }

  /** The day the search settles on keeps the time of day and is listed, so `__prev_time` on the days finds it. */
  lemma WalkSeekFound(S: Schedule, base: DateTime, tmp0: DateTime, tmp: DateTime)
    requires WellFormed(S) && ValidDateTime(tmp0) && ValidDateTime(tmp)
    requires tmp0.hour == base.hour && tmp0.minute == base.minute
    requires SeekListedDay(S.days, tmp0, SeekBound) == Ok(tmp)
    ensures tmp.hour == base.hour && tmp.minute == base.minute && tmp.day in S.days
    ensures PrevTime(S.days, tmp.day).Ok?
  {
  }

  /** A pass whose weekday lookup raises fails with that error. */
  lemma WalkWeekdayFails(S: Schedule, base: DateTime, tmp0: DateTime, tmp: DateTime, previousMonths: bool, carry: bool)
    requires WellFormed(S) && ValidDateTime(base) && ValidDateTime(tmp0) && ValidDateTime(tmp)
    requires tmp0.hour == base.hour && tmp0.minute == base.minute
    requires SeekListedDay(S.days, tmp0, SeekBound) == Ok(tmp)
    requires PrevTime(S.weekdays, DayOfWeek(base.year, base.month, base.day) + 1).Err?
    ensures DayMonthWalk(S, base, tmp0, previousMonths, carry) == Err(PrevTime(S.weekdays, DayOfWeek(base.year, base.month, base.day) + 1).error)
  {
    var ds := DayStage(S, base, tmp0, carry);
    assert ds.Err?;
  }

  /**
   * One pass of the day and month loop once the search settled on `tmp`
   * and the weekday lookup gave `pw`: the weekday rule, then the rest of
   * the pass.
   */
  lemma WalkPass(S: Schedule, base: DateTime, tmp0: DateTime, tmp: DateTime, pw: Pick, previousMonths: bool, carry: bool)
    requires WellFormed(S) && ValidDateTime(base) && ValidDateTime(tmp0) && ValidDateTime(tmp)
    requires tmp0.hour == base.hour && tmp0.minute == base.minute
    requires SeekListedDay(S.days, tmp0, SeekBound) == Ok(tmp)
    requires PrevTime(S.weekdays, DayOfWeek(base.year, base.month, base.day) + 1) == Ok(pw)
    requires tmp.hour == base.hour && tmp.minute == base.minute && PrevTime(S.days, tmp.day).Ok?
    ensures DayMonthWalk(S, base, tmp0, previousMonths, carry)
            == AfterDayStage(S, base, Stage(tmp, WeekdayRule(S, base, DayBorrow(base, PrevTime(S.days, tmp.day).value), pw, carry)), previousMonths)
  {
    var ds := DayStage(S, base, tmp0, carry);
    assert ds == Ok(Stage(tmp, WeekdayRule(S, base, DayBorrow(base, PrevTime(S.days, tmp.day).value), pw, carry)));
  }
}


