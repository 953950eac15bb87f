/**
 * The two circular list searches of the scheduler: the next listed value at
 * or after a given one (with a carry when it wraps around), and the listed
 * value before a given one (with a borrow when it wraps around).
 */
module CronSearch {
  import opened Wrappers
  import opened CronFields

  /** A value taken from a field list, and whether the search wrapped around. */
  datatype Pick = Pick(value: int, carry: bool)

  /** `[x for x in xs if x >= v]` */
  function AtLeast(xs: seq<int>, v: int): (r: seq<int>)
    ensures forall x :: x in r <==> x in xs && x >= v
    ensures Sorted(xs) ==> Sorted(r)
    ensures |r| <= |xs|
  {
    if |xs| == 0 then []
    else
      var rest := AtLeast(xs[1..], v);
      if xs[0] >= v then
        assert Sorted(xs) ==> forall x :: x in rest ==> xs[0] <= x by {
          if Sorted(xs) {
            forall x | x in rest ensures xs[0] <= x {
              var j :| 0 <= j < |xs[1..]| && xs[1..][j] == x;
              assert xs[j + 1] == x;
            }
          }
        }
        var r := [xs[0]] + rest;
        assert Sorted(xs) ==> Sorted(r) by {
          if Sorted(xs) {
            forall i, j | 0 <= i < j < |r| ensures r[i] <= r[j] {
              assert r[j] == rest[j - 1] && rest[j - 1] in rest;
              if i > 0 {
                assert r[i] == rest[i - 1];
              }
            }
          }
        }
        r
      else rest
  }

  /**
   * `__next_time(time_list, time_now)`: the first listed value that is at
   * least `v`, or the first value of the list with a carry when there is none.
   * An empty list fails as the indexing `time_list[0]` does.
   */
  function NextTime(xs: seq<int>, v: int): (r: Result<Pick, Fault>)
    ensures r.Err? <==> |xs| == 0
    ensures r.Ok? ==> r.value.value in xs
    ensures r.Ok? ==> (r.value.carry <==> forall x :: x in xs ==> x < v)
    ensures r.Ok? && r.value.carry ==> r.value.value == xs[0]
    ensures r.Ok? && !r.value.carry ==> r.value.value >= v
    ensures r.Ok? && !r.value.carry && Sorted(xs) ==>
              forall x :: x in xs && x >= v ==> r.value.value <= x
  {
    var tmp := AtLeast(xs, v);
    if |tmp| == 0 then
      if |xs| == 0 then Err(EmptyList) else Ok(Pick(xs[0], true))
    else
      assert tmp[0] in tmp;
      Ok(Pick(tmp[0], false))
  }

  /** Searching from a value no larger than any listed one finds the first listed value, without carry. */
  lemma NextTimeFirst(xs: seq<int>, v: int)
    requires Sorted(xs)
    ensures |xs| > 0 && (forall x :: x in xs ==> v <= x) ==> NextTime(xs, v) == Ok(Pick(xs[0], false))
  {
    if |xs| > 0 && forall x :: x in xs ==> v <= x {
      var p := NextTime(xs, v).value;
      assert xs[0] in xs;
      var j :| 0 <= j < |xs| && xs[j] == p.value;
      assert xs[0] <= xs[j];
    }
  }

  /** Searching from a value that `xs[i]` is the first listed value to reach finds `xs[i]`, without carry. */
  lemma NextTimeAt(xs: seq<int>, v: int, i: int)
    requires Sorted(xs) && 0 <= i < |xs| && v <= xs[i] && (i > 0 ==> xs[i - 1] < v)
    ensures NextTime(xs, v) == Ok(Pick(xs[i], false))
  {
    assert xs[i] in xs;
    var p := NextTime(xs, v).value;
    var j :| 0 <= j < |xs| && xs[j] == p.value;
    assert i <= j;
  }

  /** `list.index`: the position of the first occurrence of `v`. */
  function IndexOf(xs: seq<int>, v: int): (i: nat)
    requires v in xs
    ensures i < |xs| && xs[i] == v
    ensures forall j :: 0 <= j < i ==> xs[j] != v
  {
    if xs[0] == v then 0 else 1 + IndexOf(xs[1..], v)
  }

  /**
   * `__prev_time(time_list, item)`: the element before the first occurrence
   * of `v`, read circularly (`time_list[pos-1]` is the last element when
   * `pos` is 0), with a borrow when that element is not smaller. A value
   * that is not listed fails as `list.index` does.
   */
  function PrevTime(xs: seq<int>, v: int): (r: Result<Pick, Fault>)
    ensures r.Err? <==> v !in xs
    ensures r.Err? ==> r.error == NotInList
    ensures r.Ok? ==> r.value.value in xs
    ensures r.Ok? && Sorted(xs) ==> (r.value.carry <==> forall x :: x in xs ==> x >= v)
    ensures r.Ok? && Sorted(xs) && !r.value.carry ==>
              r.value.value < v && forall x :: x in xs && x < v ==> x <= r.value.value
    ensures r.Ok? && Sorted(xs) && r.value.carry ==>
              r.value.value == xs[|xs| - 1] && forall x :: x in xs ==> x <= r.value.value
  {
    if v !in xs then Err(NotInList)
    else
      var pos := IndexOf(xs, v);
      var elem := if pos == 0 then xs[|xs| - 1] else xs[pos - 1];
      Ok(Pick(elem, elem >= xs[pos]))
  }

  /**
   * On a full range lo..hi (what `*` expands to), `__prev_time` answers the
   * previous value, or wraps from `lo` around to `hi` with a borrow.
   */
  lemma PrevTimeFull(xs: seq<int>, lo: int, hi: int, v: int)
    requires Full(xs, lo, hi) && lo <= v <= hi
    ensures PrevTime(xs, v) == Ok(if v == lo then Pick(hi, true) else Pick(v - 1, false))
  {
    assert xs[v - lo] == v;
    var pos := IndexOf(xs, v);
    assert pos == v - lo;
  }
}
