/**
 * The five time fields of a crontab entry, each expanded to a list of
 * integers, and the faults the scheduler can run into while using them.
 */
module CronFields {

  /** The fields in entry order: minute, hour, day of month, month, day of week. */
  datatype Kind = Minute | Hour | Day | Month | Weekday

  /** Smallest value of a field's range (`min(self.timeranges[type])`). */
  function Lo(k: Kind): int {
    match k
    case Minute => 0
    case Hour => 0
    case Day => 1
    case Month => 1
    case Weekday => 0
  }

  /** Largest value of a field's range (`max(self.timeranges[type])`); weekday 7 is Sunday again. */
  function Hi(k: Kind): int {
    match k
    case Minute => 59
    case Hour => 23
    case Day => 31
    case Month => 12
    case Weekday => 7
  }

  predicate InDomain(k: Kind, x: int) {
    Lo(k) <= x <= Hi(k)
  }

  predicate Sorted(xs: seq<int>) {
    forall i, j :: 0 <= i < j < |xs| ==> xs[i] <= xs[j]
  }

  /**
   * `range(a, stop, step)` for a positive step: a, a + step, a + 2 * step,
   * ... up to the last one below `stop` (see `ProgressionValues`).
   */
  function Progression(a: int, stop: int, step: int): (r: seq<int>)
    requires step > 0
    ensures |r| == 0 <==> a >= stop
    ensures forall x :: x in r ==> a <= x < stop
    ensures Sorted(r)
    ensures step == 1 ==> |r| == (if a <= stop then stop - a else 0) && forall i :: 0 <= i < |r| ==> r[i] == a + i
    decreases stop - a
  {
    if a >= stop then []
    else
      var rest := Progression(a + step, stop, step);
      var r := [a] + rest;
      forall i | 0 < i < |r|
        ensures r[i] == rest[i - 1] && a <= r[i]
      {
        assert rest[i - 1] in rest;
      }
      r
  }

  /** The i-th value of `range(a, stop, step)` is a + i * step, and the next one would reach `stop`. */
  lemma {:induction false} ProgressionValues(a: int, stop: int, step: int)
    requires step > 0
    ensures forall i :: 0 <= i < |Progression(a, stop, step)| ==> Progression(a, stop, step)[i] == a + i * step
    ensures |Progression(a, stop, step)| > 0 ==> stop <= a + |Progression(a, stop, step)| * step
    decreases stop - a
  {
    if a < stop {
      var r := Progression(a, stop, step);
      var rest := Progression(a + step, stop, step);
      ProgressionValues(a + step, stop, step);
      assert r == [a] + rest;
      forall i | 0 < i < |r|
        ensures r[i] == a + i * step
      {
        assert r[i] == rest[i - 1] == a + step + (i - 1) * step;
      }
      assert |r| * step == step + |rest| * step;
    }
  }

  /** `xs` is lo, lo + 1, ..., hi: what `*` expands to. */
  predicate Full(xs: seq<int>, lo: int, hi: int) {
    |xs| == hi - lo + 1 && forall i :: 0 <= i < |xs| ==> xs[i] == lo + i
  }

  /** An expanded field: ascending, duplicates allowed, every value in range. Possibly empty. */
  predicate FieldOk(k: Kind, xs: seq<int>) {
    Sorted(xs) && forall x :: x in xs ==> InDomain(k, x)
  }

  /** `self.fields` after a successful parse: one expanded list per field. */
  datatype Schedule = Schedule(minutes: seq<int>, hours: seq<int>, days: seq<int>,
                               months: seq<int>, weekdays: seq<int>)

  function Field(s: Schedule, k: Kind): seq<int> {
    match k
    case Minute => s.minutes
    case Hour => s.hours
    case Day => s.days
    case Month => s.months
    case Weekday => s.weekdays
  }

  predicate WellFormed(s: Schedule) {
    FieldOk(Minute, s.minutes) && FieldOk(Hour, s.hours) && FieldOk(Day, s.days)
    && FieldOk(Month, s.months) && FieldOk(Weekday, s.weekdays)
  }

  /**
   * Why a schedule computation stopped:
   * EmptyList      indexing an empty field list (`IndexError`),
   * NotInList      `list.index` of a missing value (`ValueError`),
   * InvalidDate    building a date that does not exist (`ValueError`),
   * RecursionLimit the interpreter's recursion limit (modelled by fuel),
   * SearchLimit    a day-by-day search that found nothing within its bound.
   */
  datatype Fault = EmptyList | NotInList | InvalidDate | RecursionLimit | SearchLimit
}
