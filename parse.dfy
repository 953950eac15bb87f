/**
 * The entry parser of `SimpleCrontabEntry`: `set_value` splits the entry
 * into five whitespace-separated fields and `checkfield` expands each one
 * into a sorted list of integers from the field's range, after replacing
 * month and weekday names by their numbers and `*` by the whole range.
 */
module CronParse {
  import opened Wrappers
  import opened Text
  import opened CronFields

  /**
   * Why `checkfield` rejects a field: a step outside the range ("stepwidth"),
   * a range endpoint outside it ("range"), a term that is not a number, a
   * number outside the range (both "fixed"), or a step of 0 that `range()`
   * refuses. The last escapes `_is_valid` as a different exception (its
   * one-argument `ValueError` does not fit the three-name `except` clause of
   * cron.py:208), but the entry is rejected all the same.
   */
  datatype FieldError = Stepwidth | RangeBound | NotNumeric | OutOfRange | ZeroStep

  /** Why `set_value` rejects an entry. */
  datatype EntryError = WrongFieldCount | BadField(kind: Kind, err: FieldError)

  // ---------------------------------------------------------------------------
  // Month and weekday names (cron.py:132-139)

  /**
   * One `re.sub("(?<!\w|/)" + name + "(?!\w)", key, s)`: every maximal run of
   * word characters equal to `name` that does not follow a `/` becomes `key`.
   * `afterSlash` says whether the character before `s` was a `/`.
   */
  function SubName(s: string, name: string, key: string, afterSlash: bool): (r: string)
    ensures forall c :: c in r ==> c in s || c in key
    ensures key == name ==> r == s
    decreases |s|
  {
    if s == [] then []
    else if !IsWordChar(s[0]) then [s[0]] + SubName(s[1..], name, key, s[0] == '/')
    else
      var n := WordSpan(s);
      (if s[..n] == name && !afterSlash then key else s[..n]) + SubName(s[n..], name, key, false)
  }

  /** `self.monthnames` as (number, name) pairs. */
  const MonthNames: seq<(string, string)> :=
    [("1", "Jan"), ("2", "Feb"), ("3", "Mar"), ("4", "Apr"), ("5", "May"), ("6", "Jun"),
     ("7", "Jul"), ("8", "Aug"), ("9", "Sep"), ("10", "Oct"), ("11", "Nov"), ("12", "Dec")]

  /**
   * `self.downames` as (number, name) pairs, in the order `popitem` hands
   * them out where it matters: Sunday is listed under 0 and 7, and the pair
   * with 0 comes first, so `Sun` becomes 0.
   */
  const WeekdayNames: seq<(string, string)> :=
    [("0", "Sun"), ("1", "Mon"), ("2", "Tue"), ("3", "Wed"), ("4", "Thu"), ("5", "Fri"),
     ("6", "Sat"), ("7", "Sun")]

  function Aliases(k: Kind): seq<(string, string)> {
    match k
    case Month => MonthNames
    case Weekday => WeekdayNames
    case _ => []
  }

  /** The `while True: popitem ... re.sub` loop: one substitution per pair, in order. */
  function ReplaceNames(s: string, aliases: seq<(string, string)>): (r: string)
    ensures forall c :: c in r ==> c in s || exists p :: p in aliases && c in p.0
    decreases |aliases|
  {
    if aliases == [] then s
    else ReplaceNames(SubName(s, aliases[0].1, aliases[0].0, false), aliases[1..])
  }

  // ---------------------------------------------------------------------------
  // `*` and the comma terms (cron.py:141-143)

  /** `expr.replace("*", str(min(timerange)) + "-" + str(max(timerange)))`. */
  function ExpandStar(s: string, k: Kind): (r: string)
  {
    if s == [] then []
    else (if s[0] == '*' then NatToString(Lo(k)) + "-" + NatToString(Hi(k)) else [s[0]]) + ExpandStar(s[1..], k)
  }

  /** `^(\d+)-(\d+)$`: two numbers around a dash. */
  function RangeForm(t: string): (r: Option<(nat, nat)>)
    ensures r.Some? ==> forall i :: 0 <= i < |t| ==> IsDigit(t[i]) || t[i] == '-'
  {
    var i := DigitSpan(t);
    if 0 < i < |t| && t[i] == '-' && Digits(t[i + 1..]) then
      Some((DigitsValue(t[..i]), DigitsValue(t[i + 1..])))
    else None
  }

  /** `^(\d+-\d+)/(\d+)$`: a range, a slash and a step; gives the range text and the step. */
  function StepForm(t: string): (r: Option<(string, nat)>)
    ensures r.Some? ==> RangeForm(r.value.0).Some?
  {
    var j := Find(t, '/');
    if j < |t| && RangeForm(t[..j]).Some? && Digits(t[j + 1..]) then
      Some((t[..j], DigitsValue(t[j + 1..])))
    else None
  }

  /** Both patterns match digits, dashes and slashes only. */
  lemma FormChars(t: string)
    ensures RangeForm(t).Some? ==> forall i :: 0 <= i < |t| ==> IsDigit(t[i]) || t[i] == '-'
    ensures StepForm(t).Some? ==> forall i :: 0 <= i < |t| ==> IsDigit(t[i]) || t[i] == '-' || t[i] == '/'
  {
    var j := Find(t, '/');
    if StepForm(t).Some? {
      assert forall i :: 0 <= i < j ==> t[i] == t[..j][i];
      assert forall i :: j < i < |t| ==> t[i] == t[j + 1..][i - j - 1];
    }
  }

  /**
   * One pass of the `for field in lst` loop of cron.py:148-192: the checks
   * in the source's order (step, range endpoints, `range()` itself, then a
   * plain number) and the values the term adds.
   */
  function ParseTerm(t: string, k: Kind): (r: Result<seq<int>, FieldError>)
    ensures r.Ok? ==> FieldOk(k, r.value)
    ensures r == Err(ZeroStep) ==> StepForm(t).Some? && StepForm(t).value.1 == 0
    ensures Digits(t) ==> r == (if InDomain(k, DigitsValue(t)) then Ok([DigitsValue(t)]) else Err(OutOfRange))
  {
    match StepForm(t)
    case Some((rng, step)) =>
      if !InDomain(k, step) then Err(Stepwidth)
      else
        var (a, b) := RangeForm(rng).value;
        if !InDomain(k, a) || !InDomain(k, b) then Err(RangeBound)
        else if step == 0 then Err(ZeroStep)
        else Ok(Progression(a, b + 1, step))
    case None =>
      match RangeForm(t)
      case Some((a, b)) =>
        if !InDomain(k, a) || !InDomain(k, b) then Err(RangeBound)
        else Ok(Progression(a, b + 1, 1))
      case None =>
        if !Digits(t) then Err(NotNumeric)
        else if !InDomain(k, DigitsValue(t)) then Err(OutOfRange)
        else Ok([DigitsValue(t)])
  }

  /** The values of all terms, in order, or the first term's error. */
  function ExpandTerms(terms: seq<string>, k: Kind): (r: Result<seq<int>, FieldError>)
    ensures r.Ok? <==> forall i :: 0 <= i < |terms| ==> ParseTerm(terms[i], k).Ok?
    ensures r.Ok? ==> forall x :: x in r.value ==> InDomain(k, x)
  {
    if terms == [] then Ok([])
    else
      var xs :- ParseTerm(terms[0], k);
      var ys :- ExpandTerms(terms[1..], k);
      Ok(xs + ys)
  }

  // ---------------------------------------------------------------------------
  // Sorting (`expr_range.sort()`, cron.py:194)

  function Insert(x: int, s: seq<int>): (r: seq<int>)
    requires Sorted(s)
    ensures Sorted(r) && multiset(r) == multiset(s) + multiset{x}
    ensures |r| > 0 && r[0] == (if s == [] || x <= s[0] then x else s[0])
  {
    if s == [] then [x]
    else if x <= s[0] then
      SortedCons(x, s);
      [x] + s
    else
      assert s == [s[0]] + s[1..];
      var rest := Insert(x, s[1..]);
      SortedCons(s[0], rest);
      [s[0]] + rest
  }

  /** A value no greater than the head of a sorted list extends it in order. */
  lemma SortedCons(a: int, s: seq<int>)
    requires Sorted(s) && (s == [] || a <= s[0])
    ensures Sorted([a] + s)
  {
    assert forall i :: 0 <= i < |s| ==> s[0] <= s[i];
  }

  /** The list in ascending order, duplicates kept. */
  function Sort(xs: seq<int>): (r: seq<int>)
    ensures Sorted(r) && multiset(r) == multiset(xs)
  {
    if xs == [] then []
    else
      assert xs == [xs[0]] + xs[1..];
      Insert(xs[0], Sort(xs[1..]))
  }

  /** Sorting a list that is already in order leaves it as it is. */
  lemma {:induction false} SortSorted(xs: seq<int>)
    requires Sorted(xs)
    ensures Sort(xs) == xs
  {
    if xs != [] {
      SortSorted(xs[1..]);
    }
  }

  // ---------------------------------------------------------------------------
  // Fields and entries

  /** `checkfield(expr, type)`: the field's sorted list of values, or why it was rejected. */
  function ParseField(expr: string, k: Kind): (r: Result<seq<int>, FieldError>)
    ensures r.Ok? ==> FieldOk(k, r.value)
  {
    var terms := Split(ExpandStar(ReplaceNames(expr, Aliases(k)), k), ',');
    var xs :- ExpandTerms(terms, k);
    var sorted := Sort(xs);
    assert forall x :: x in sorted ==> x in multiset(xs);
    Ok(sorted)
  }

  /** `self.fields[type] = expr_range` once `checkfield` passed; the step of the loop that checks one term. */
  function Then(acc: seq<int>, rest: Result<seq<int>, FieldError>): Result<seq<int>, FieldError> {
    match rest
    case Ok(ys) => Ok(acc + ys)
    case Err(e) => Err(e)
  }

  /** The terms' values are the first term's followed by the rest's. */
  lemma TermsStep(terms: seq<string>, k: Kind)
    requires |terms| > 0
    ensures ExpandTerms(terms, k) == match ParseTerm(terms[0], k)
                                     case Ok(xs) => Then(xs, ExpandTerms(terms[1..], k))
                                     case Err(e) => Err(e)
  {
  }

  lemma ThenThen(acc: seq<int>, xs: seq<int>, rest: Result<seq<int>, FieldError>)
    ensures Then(acc, Then(xs, rest)) == Then(acc + xs, rest)
  {
    if rest.Ok? {
      assert acc + (xs + rest.value) == (acc + xs) + rest.value;
    }
  }

  /** The name-replacement loop of `checkfield` (cron.py:132-139): one `re.sub` per pair. */
  method ReplaceLoop(expr: string, alias: seq<(string, string)>) returns (e: string)
    ensures e == ReplaceNames(expr, alias)
  {
    e := expr;
    var i := 0;
    while i < |alias|
      invariant 0 <= i <= |alias|
      invariant ReplaceNames(e, alias[i..]) == ReplaceNames(expr, alias)
    {
      assert alias[i..][1..] == alias[i + 1..];
      e := SubName(e, alias[i].1, alias[i].0, false);
      i := i + 1;
    }
    assert alias[i..] == [];
  }

  /** The result of each term on its own, in order. */
  function TermResults(terms: seq<string>, k: Kind): (rs: seq<Result<seq<int>, FieldError>>)
    ensures |rs| == |terms|
    ensures forall i :: 0 <= i < |terms| ==> rs[i] == ParseTerm(terms[i], k)
  {
    seq(|terms|, i requires 0 <= i < |terms| => ParseTerm(terms[i], k))
  }

  /** The values of a list of term results, in order, or the first error among them. */
  function Gather(rs: seq<Result<seq<int>, FieldError>>): Result<seq<int>, FieldError> {
    if rs == [] then Ok([])
    else
      var xs :- rs[0];
      var ys :- Gather(rs[1..]);
      Ok(xs + ys)
  }

  /** Expanding the terms is gathering the terms' separate results. */
  lemma {:induction false} ExpandTermsGather(terms: seq<string>, k: Kind)
    ensures ExpandTerms(terms, k) == Gather(TermResults(terms, k))
  {
    if terms != [] {
      ExpandTermsGather(terms[1..], k);
      assert TermResults(terms, k)[1..] == TermResults(terms[1..], k);
    }
  }

  /** One pass of the term loop keeps the loop's invariant, or ends it with the term's error. */
  lemma GatherStep(rs: seq<Result<seq<int>, FieldError>>, j: nat, acc: seq<int>)
    requires j < |rs|
    requires Then(acc, Gather(rs[j..])) == Gather(rs)
    ensures rs[j].Err? ==> Gather(rs) == Err(rs[j].error)
    ensures rs[j].Ok? ==> Then(acc + rs[j].value, Gather(rs[j + 1..])) == Gather(rs)
  {
    assert rs[j..][0] == rs[j] && rs[j..][1..] == rs[j + 1..];
    if rs[j].Ok? {
      ThenThen(acc, rs[j].value, Gather(rs[j + 1..]));
    }
  }

  /**
   * The loop over the comma terms (cron.py:148-192): `expr_range` grows by
   * each term's values and the first bad term stops the loop.
   */
  method TermsLoop(lst: seq<string>, k: Kind) returns (r: Result<seq<int>, FieldError>)
    ensures r == ExpandTerms(lst, k)
  {
    ghost var rs := TermResults(lst, k);
    ExpandTermsGather(lst, k);
    var exprRange: seq<int> := [];
    var j := 0;
    assert rs[j..] == rs;
    assert Gather(rs).Ok? ==> [] + Gather(rs).value == Gather(rs).value;
    while j < |lst|
      invariant 0 <= j <= |lst|
      invariant Then(exprRange, Gather(rs[j..])) == Gather(rs)
    {
      var buff := ParseTerm(lst[j], k);
      assert buff == rs[j];
      GatherStep(rs, j, exprRange);
      if buff.Err? {
        return Err(buff.error);
      }
      exprRange := exprRange + buff.value;
      j := j + 1;
    }
    assert rs[j..] == [];
    assert exprRange + [] == exprRange;
    r := Ok(exprRange);
  }

  /** `checkfield(expr, type)` as the source runs it: names, `*`, the terms, then the sort. */
  method CheckField(expr: string, k: Kind) returns (r: Result<seq<int>, FieldError>)
    ensures r == ParseField(expr, k)
  {
    var e := ReplaceLoop(expr, Aliases(k));
    var lst := Split(ExpandStar(e, k), ',');
    var exprRange := TermsLoop(lst, k);
    if exprRange.Err? {
      return Err(exprRange.error);
    }
    r := Ok(Sort(exprRange.value));
  }

  /** The field that the i-th token of an entry holds. */
  function KindAt(i: nat): Kind
    requires i < 5
  {
    [Minute, Hour, Day, Month, Weekday][i]
  }

  /** Every one of five tokens passes `checkfield` for its field. */
  predicate FieldsParse(tokens: seq<string>)
    requires |tokens| == 5
  {
    ParseField(tokens[0], Minute).Ok? && ParseField(tokens[1], Hour).Ok? && ParseField(tokens[2], Day).Ok?
    && ParseField(tokens[3], Month).Ok? && ParseField(tokens[4], Weekday).Ok?
  }

  /** `checkfield` on each of five tokens, minute first. */
  function FieldResults(tokens: seq<string>): (rs: seq<Result<seq<int>, FieldError>>)
    requires |tokens| == 5
    ensures |rs| == 5
  {
    seq(5, n requires 0 <= n < 5 => ParseField(tokens[n], KindAt(n)))
  }

  /** The expansions of fields `i` to 4, or the first error, tagged with its field. */
  function GatherFields(rs: seq<Result<seq<int>, FieldError>>, i: nat): (r: Result<seq<seq<int>>, EntryError>)
    requires |rs| == 5 && i <= 5
    ensures r.Ok? ==> |r.value| == 5 - i
    ensures r.Err? ==> r.error.BadField?
    decreases 5 - i
  {
    if i == 5 then Ok([])
    else
      match rs[i]
      case Err(e) => Err(BadField(KindAt(i), e))
      case Ok(xs) =>
        var rest :- GatherFields(rs, i + 1);
        Ok([xs] + rest)
  }

  /** Gathering from field `i` succeeds exactly when fields `i` to 4 do, and keeps their values in order. */
  lemma {:induction false} GatherFieldsOk(rs: seq<Result<seq<int>, FieldError>>, i: nat)
    requires |rs| == 5 && i <= 5
    ensures GatherFields(rs, i).Ok? <==> forall n :: i <= n < 5 ==> rs[n].Ok?
    ensures GatherFields(rs, i).Ok? ==> forall n :: i <= n < 5 ==> GatherFields(rs, i).value[n - i] == rs[n].value
    decreases 5 - i
  {
    if i < 5 {
      GatherFieldsOk(rs, i + 1);
    }
  }

  /** A successful gathering lists the five fields' values in order. */
  lemma GatherFieldsValues(rs: seq<Result<seq<int>, FieldError>>)
    requires |rs| == 5
    ensures GatherFields(rs, 0).Ok? ==> GatherFields(rs, 0).value == [rs[0].value, rs[1].value, rs[2].value, rs[3].value, rs[4].value]
  {
    GatherFieldsOk(rs, 0);
  }

  /** The fields already checked, `acc`, followed by the gathering of the rest. */
  function ThenFields(acc: seq<seq<int>>, rest: Result<seq<seq<int>>, EntryError>): Result<seq<seq<int>>, EntryError> {
    match rest
    case Ok(xs) => Ok(acc + xs)
    case Err(e) => Err(e)
  }

  /** Nothing checked yet: the gathering of the rest is the whole result. */
  lemma ThenFieldsEmpty(rest: Result<seq<seq<int>>, EntryError>)
    ensures ThenFields([], rest) == rest
  {
    if rest.Ok? {
      assert [] + rest.value == rest.value;
    }
  }

  /** One step of `_is_valid`'s loop: a bad field `i` ends the gathering with its error, a good one joins `acc`. */
  lemma GatherFieldsStep(rs: seq<Result<seq<int>, FieldError>>, i: nat, acc: seq<seq<int>>)
    requires |rs| == 5 && i < 5
    ensures rs[i].Err? ==> ThenFields(acc, GatherFields(rs, i)) == Err(BadField(KindAt(i), rs[i].error))
    ensures rs[i].Ok? ==> ThenFields(acc, GatherFields(rs, i)) == ThenFields(acc + [rs[i].value], GatherFields(rs, i + 1))
  {
    if rs[i].Ok? && GatherFields(rs, i + 1).Ok? {
      var v := GatherFields(rs, i + 1).value;
      assert acc + ([rs[i].value] + v) == acc + [rs[i].value] + v;
    }
  }

  /** Each field that passes `checkfield` is sorted and within its field's range. */
  lemma FieldResultsOk(tokens: seq<string>)
    requires |tokens| == 5
    ensures forall n :: 0 <= n < 5 && FieldResults(tokens)[n].Ok? ==> FieldOk(KindAt(n), FieldResults(tokens)[n].value)
  {
  }

  /** Fields that are each well formed for their position gather into a well-formed schedule. */
  lemma GatherFieldsWellFormed(rs: seq<Result<seq<int>, FieldError>>)
    requires |rs| == 5
    requires forall n :: 0 <= n < 5 && rs[n].Ok? ==> FieldOk(KindAt(n), rs[n].value)
    ensures var g := GatherFields(rs, 0);
            g.Ok? ==> WellFormed(Schedule(g.value[0], g.value[1], g.value[2], g.value[3], g.value[4]))
  {
    GatherFieldsOk(rs, 0);
    assert KindAt(0) == Minute && KindAt(1) == Hour && KindAt(2) == Day && KindAt(3) == Month && KindAt(4) == Weekday;
    if GatherFields(rs, 0).Ok? {
      var v := GatherFields(rs, 0).value;
      assert v[0] == rs[0].value && v[1] == rs[1].value && v[2] == rs[2].value && v[3] == rs[3].value && v[4] == rs[4].value;
    }
  }

  /**
   * `set_value` and `_is_valid` (cron.py:39-52, 200-211): five tokens, each
   * expanded by `checkfield`; one bad field rejects the whole entry. The
   * fields are checked minute first; the source's dict order may check
   * them in another order, which only changes which bad field is reported.
   */
  function ParseEntry(entry: string): (r: Result<Schedule, EntryError>)
    ensures r.Ok? ==> WellFormed(r.value)
  {
    var tokens := Tokens(entry);
    if |tokens| != 5 then Err(WrongFieldCount)
    else
      var rs := FieldResults(tokens);
      var fs :- GatherFields(rs, 0);
      FieldResultsOk(tokens);
      GatherFieldsWellFormed(rs);
      Ok(Schedule(fs[0], fs[1], fs[2], fs[3], fs[4]))
  }

  /** An entry is accepted exactly when it has five tokens and each passes `checkfield` for its field. */
  lemma ParseEntryMeaning(entry: string)
    ensures |Tokens(entry)| != 5 ==> ParseEntry(entry) == Err(WrongFieldCount)
    ensures ParseEntry(entry).Ok? <==> |Tokens(entry)| == 5 && FieldsParse(Tokens(entry))
  {
    var t := Tokens(entry);
    if |t| == 5 {
      FieldResultsKinds(t);
      GatherFieldsOk(FieldResults(t), 0);
    }
  }

  /** An accepted entry's schedule holds the five expansions, minute first. */
  lemma ParseEntryValue(entry: string)
    ensures ParseEntry(entry).Ok? ==> var t := Tokens(entry);
              ParseEntry(entry).value == Schedule(ParseField(t[0], Minute).value, ParseField(t[1], Hour).value,
                                                  ParseField(t[2], Day).value, ParseField(t[3], Month).value,
                                                  ParseField(t[4], Weekday).value)
  {
    var t := Tokens(entry);
    if ParseEntry(entry).Ok? {
      var rs := FieldResults(t);
      var fs := GatherFields(rs, 0).value;
      assert ParseEntry(entry).value == Schedule(fs[0], fs[1], fs[2], fs[3], fs[4]);
      GatherFieldsValues(rs);
      FieldResultsKinds(t);
    }
  }

  /** The five results of `FieldResults`, field by field. */
  lemma FieldResultsKinds(t: seq<string>)
    requires |t| == 5
    ensures FieldResults(t)[0] == ParseField(t[0], Minute) && FieldResults(t)[1] == ParseField(t[1], Hour)
    ensures FieldResults(t)[2] == ParseField(t[2], Day) && FieldResults(t)[3] == ParseField(t[3], Month)
    ensures FieldResults(t)[4] == ParseField(t[4], Weekday)
  {
    assert KindAt(0) == Minute && KindAt(1) == Hour && KindAt(2) == Day && KindAt(3) == Month && KindAt(4) == Weekday;
  }

  // ---------------------------------------------------------------------------
  // Names

  /** A run of word characters, the unit the name patterns compare. */
  predicate Word(w: string) {
    |w| > 0 && forall i :: 0 <= i < |w| ==> IsWordChar(w[i])
  }

  predicate NoLetter(s: string) {
    forall i :: 0 <= i < |s| ==> !IsLetter(s[i])
  }

  /** Every name starts with a letter and every number has none. */
  predicate Named(aliases: seq<(string, string)>) {
    forall i :: 0 <= i < |aliases| ==> |aliases[i].1| > 0 && IsLetter(aliases[i].1[0]) && NoLetter(aliases[i].0)
  }

  lemma AliasesNamed(k: Kind)
    ensures Named(Aliases(k))
  {
  }

  /** Text without letters holds no name, so a substitution leaves it alone. */
  lemma {:induction false} SubNameNoLetter(s: string, name: string, key: string, afterSlash: bool)
    requires NoLetter(s) && |name| > 0 && IsLetter(name[0])
    ensures SubName(s, name, key, afterSlash) == s
    decreases |s|, 1
  {
    if s != [] {
      if !IsWordChar(s[0]) {
        NoLetterDrop(s, 1);
        SubNameNoLetter(s[1..], name, key, s[0] == '/');
        assert [s[0]] + s[1..] == s;
      } else {
        SubNameNoLetterWord(s, name, key, afterSlash);
      }
    }
  }

  /** A run of digits is no name, and is kept as it is. */
  lemma {:induction false} SubNameNoLetterWord(s: string, name: string, key: string, afterSlash: bool)
    requires NoLetter(s) && |name| > 0 && IsLetter(name[0])
    requires s != [] && IsWordChar(s[0])
    ensures SubName(s, name, key, afterSlash) == s
    decreases |s|, 0
  {
    var n := WordSpan(s);
    NotNamePrefix(s, n, name);
    NoLetterDrop(s, n);
    SubNameNoLetter(s[n..], name, key, false);
    assert s[..n] + s[n..] == s;
  }


  lemma NoLetterDrop(s: string, n: nat)
    requires NoLetter(s) && n <= |s|
    ensures NoLetter(s[n..])
  {
    assert forall i :: 0 <= i < |s[n..]| ==> s[n..][i] == s[n + i];
  }

  lemma NotNamePrefix(s: string, n: nat, name: string)
    requires NoLetter(s) && 0 < n <= |s| && |name| > 0 && IsLetter(name[0])
    ensures s[..n] != name
  {
    assert s[..n][0] == s[0];
  }


  /** Text without letters comes through the name replacement unchanged. */
  lemma {:induction false} ReplaceNoLetter(s: string, aliases: seq<(string, string)>)
    requires NoLetter(s) && Named(aliases)
    ensures ReplaceNames(s, aliases) == s
    decreases |aliases|
  {
    if aliases != [] {
      SubNameNoLetter(s, aliases[0].1, aliases[0].0, false);
      assert Named(aliases[1..]) by {
        assert forall i :: 0 <= i < |aliases[1..]| ==> aliases[1..][i] == aliases[i + 1];
      }
      ReplaceNoLetter(s, aliases[1..]);
    }
  }

  /** Text without letters comes through the field's own name replacement unchanged. */
  lemma NoLetterField(s: string, k: Kind)
    requires NoLetter(s)
    ensures ReplaceNames(s, Aliases(k)) == s
  {
    AliasesNamed(k);
    ReplaceNoLetter(s, Aliases(k));
  }

  /** A whole word is replaced exactly when it is the name and does not follow a `/`. */
  lemma SubNameWord(w: string, name: string, key: string, afterSlash: bool)
    requires Word(w)
    ensures SubName(w, name, key, afterSlash) == if w == name && !afterSlash then key else w
  {
    assert WordSpan(w) == |w|;
    assert w[..|w|] == w && w[|w|..] == [];
  }

  /** A word that is no name comes through the name replacement unchanged. */
  lemma {:induction false} ReplaceUnknown(w: string, aliases: seq<(string, string)>)
    requires Word(w) && forall i :: 0 <= i < |aliases| ==> aliases[i].1 != w
    ensures ReplaceNames(w, aliases) == w
    decreases |aliases|
  {
    if aliases != [] {
      SubNameWord(w, aliases[0].1, aliases[0].0, false);
      assert forall i :: 0 <= i < |aliases[1..]| ==> aliases[1..][i] == aliases[i + 1];
      ReplaceUnknown(w, aliases[1..]);
    }
  }

  /** A name becomes the number of its first pair; later pairs cannot touch a number. */
  lemma {:induction false} ReplaceFirst(w: string, aliases: seq<(string, string)>, i: nat)
    requires Word(w) && Named(aliases)
    requires i < |aliases| && aliases[i].1 == w && forall j :: 0 <= j < i ==> aliases[j].1 != w
    ensures ReplaceNames(w, aliases) == aliases[i].0
    decreases i
  {
    SubNameWord(w, aliases[0].1, aliases[0].0, false);
    assert Named(aliases[1..]) by {
      assert forall j :: 0 <= j < |aliases[1..]| ==> aliases[1..][j] == aliases[j + 1];
    }
    if i == 0 {
      ReplaceNoLetter(aliases[0].0, aliases[1..]);
    } else {
      ReplaceFirst(w, aliases[1..], i - 1);
    }
  }

  // A word in the step position (after a star and a slash) follows a slash, so no substitution touches it.
  lemma SubNameStep(w: string, name: string, key: string)
    requires Word(w)
    ensures SubName("*/" + w, name, key, false) == "*/" + w
  {
    var s := "*/" + w;
    assert s[1..] == "/" + w && s[1..][1..] == w;
    SubNameWord(w, name, key, true);
  }

  lemma {:induction false} ReplaceStep(w: string, aliases: seq<(string, string)>)
    requires Word(w)
    ensures ReplaceNames("*/" + w, aliases) == "*/" + w
    decreases |aliases|
  {
    if aliases != [] {
      SubNameStep(w, aliases[0].1, aliases[0].0);
      ReplaceStep(w, aliases[1..]);
    }
  }

  // ---------------------------------------------------------------------------
  // Terms

  /** `*` is the only character the star expansion changes. */
  lemma {:induction false} ExpandStarNone(s: string, k: Kind)
    requires '*' !in s
    ensures ExpandStar(s, k) == s
    decreases |s|
  {
    if s != [] {
      assert s[0] in s;
      assert forall c :: c in s[1..] ==> c in s;
      ExpandStarNone(s[1..], k);
      assert [s[0]] + s[1..] == s;
    }
  }

  lemma {:induction false} ExpandStarConcat(a: string, b: string, k: Kind)
    ensures ExpandStar(a + b, k) == ExpandStar(a, k) + ExpandStar(b, k)
    decreases |a|
  {
    if a == [] {
      assert a + b == b;
    } else {
      assert (a + b)[0] == a[0] && (a + b)[1..] == a[1..] + b;
      ExpandStarConcat(a[1..], b, k);
    }
  }

  /** The text of the range `a-b`. */
  function RangeText(a: nat, b: nat): (t: string)
    ensures '/' !in t && ',' !in t && '*' !in t && NoLetter(t)
  {
    var t := NatToString(a) + "-" + NatToString(b);
    assert forall i :: 0 <= i < |t| ==> t[i] == '-' || t[i] in NatToString(a) || t[i] in NatToString(b);
    t
  }

  lemma RangeFormOf(a: nat, b: nat)
    ensures RangeForm(RangeText(a, b)) == Some((a, b))
  {
    var t := RangeText(a, b);
    var da := NatToString(a);
    DigitSpanOf(da, "-" + NatToString(b));
    assert t == da + ("-" + NatToString(b));
    assert t[..|da|] == da && t[|da| + 1..] == NatToString(b);
    NatToStringValue(a);
    NatToStringValue(b);
  }

  /** A number alone: itself when in range, otherwise out of range. */
  lemma NumberTerm(n: nat, k: Kind)
    ensures ParseTerm(NatToString(n), k) == if InDomain(k, n) then Ok([n]) else Err(OutOfRange)
  {
    var t := NatToString(n);
    assert '/' !in t;
    assert DigitSpan(t) == |t|;
    NatToStringValue(n);
  }

  /** `a-b`: every value from a to b, or a range error when an endpoint is out of range. */
  lemma RangeTerm(a: nat, b: nat, k: Kind)
    ensures ParseTerm(RangeText(a, b), k)
            == if !InDomain(k, a) || !InDomain(k, b) then Err(RangeBound) else Ok(Progression(a, b + 1, 1))
  {
    RangeFormOf(a, b);
  }

  /** `a-b/n`: the step is checked first, then the endpoints, then that the step is not 0. */
  lemma StepTerm(a: nat, b: nat, n: nat, k: Kind)
    ensures ParseTerm(RangeText(a, b) + "/" + NatToString(n), k)
            == if !InDomain(k, n) then Err(Stepwidth)
               else if !InDomain(k, a) || !InDomain(k, b) then Err(RangeBound)
               else if n == 0 then Err(ZeroStep)
               else Ok(Progression(a, b + 1, n))
  {
    StepFormOf(a, b, n);
    RangeFormOf(a, b);
    SteppedTerm(RangeText(a, b) + "/" + NatToString(n), RangeText(a, b), a, b, n, k);
  }

  /** A term of the form `a-b/n`, whatever its text, in the order of the checks. */
  lemma SteppedTerm(t: string, rng: string, a: nat, b: nat, n: nat, k: Kind)
    requires StepForm(t) == Some((rng, n)) && RangeForm(rng) == Some((a, b))
    ensures ParseTerm(t, k)
            == if !InDomain(k, n) then Err(Stepwidth)
               else if !InDomain(k, a) || !InDomain(k, b) then Err(RangeBound)
               else if n == 0 then Err(ZeroStep)
               else Ok(Progression(a, b + 1, n))
  {
  }

  lemma StepFormOf(a: nat, b: nat, n: nat)
    ensures StepForm(RangeText(a, b) + "/" + NatToString(n)) == Some((RangeText(a, b), n))
  {
    var rng := RangeText(a, b);
    var t := rng + "/" + NatToString(n);
    FindAfter(rng, '/', NatToString(n));
    assert t[..|rng|] == rng && t[|rng| + 1..] == NatToString(n);
    RangeFormOf(a, b);
    NatToStringValue(n);
  }

  /** Anything with a letter left in it after the name replacement is not a number. */
  lemma LetterTerm(t: string, k: Kind)
    requires exists i :: 0 <= i < |t| && IsLetter(t[i])
    ensures ParseTerm(t, k) == Err(NotNumeric)
  {
    FormChars(t);
  }

  /** A list of terms passes exactly when every one of its terms passes. */
  lemma {:induction false} ExpandTermsOk(terms: seq<string>, k: Kind)
    ensures ExpandTerms(terms, k).Ok? <==> forall i :: 0 <= i < |terms| ==> ParseTerm(terms[i], k).Ok?
  {
    ExpandTermsGather(terms, k);
    GatherOk(TermResults(terms, k));
  }

  /** The values of a list of terms that passes are exactly the values of its terms. */
  lemma {:induction false} ExpandTermsValues(terms: seq<string>, k: Kind)
    ensures ExpandTerms(terms, k).Ok? ==>
              forall x :: x in ExpandTerms(terms, k).value <==> exists i :: 0 <= i < |terms| && ParseTerm(terms[i], k).Ok? && x in ParseTerm(terms[i], k).value
  {
    var rs := TermResults(terms, k);
    ExpandTermsGather(terms, k);
    GatherValues(rs);
  }

  /** A list of terms that fails reports the error of its first bad term. */
  lemma {:induction false} ExpandTermsFirstError(terms: seq<string>, k: Kind)
    ensures ExpandTerms(terms, k).Err? ==>
              exists i :: 0 <= i < |terms| && ParseTerm(terms[i], k) == Err(ExpandTerms(terms, k).error)
                          && forall j :: 0 <= j < i ==> ParseTerm(terms[j], k).Ok?
  {
    var rs := TermResults(terms, k);
    ExpandTermsGather(terms, k);
    GatherFirstError(rs);
  }

  /** Gathering succeeds exactly when every result does. */
  lemma {:induction false} GatherOk(rs: seq<Result<seq<int>, FieldError>>)
    ensures Gather(rs).Ok? <==> forall i :: 0 <= i < |rs| ==> rs[i].Ok?
  {
    if rs != [] {
      GatherOk(rs[1..]);
      assert forall i :: 0 < i < |rs| ==> rs[i] == rs[1..][i - 1];
    }
  }

  /** The gathered values are exactly the values of the separate results. */
  lemma {:induction false} GatherValues(rs: seq<Result<seq<int>, FieldError>>)
    ensures Gather(rs).Ok? ==>
              forall x :: x in Gather(rs).value <==> exists i :: 0 <= i < |rs| && rs[i].Ok? && x in rs[i].value
  {
    if rs != [] {
      GatherValues(rs[1..]);
      assert forall i :: 0 < i < |rs| ==> rs[i] == rs[1..][i - 1];
    }
  }

  /** Gathering that fails reports the first error. */
  lemma {:induction false} GatherFirstError(rs: seq<Result<seq<int>, FieldError>>)
    ensures Gather(rs).Err? ==>
              exists i :: 0 <= i < |rs| && rs[i] == Err(Gather(rs).error) && forall j :: 0 <= j < i ==> rs[j].Ok?
  {
    if rs != [] && Gather(rs).Err? && rs[0].Ok? {
      GatherFirstError(rs[1..]);
      var i :| 0 <= i < |rs[1..]| && rs[1..][i] == Err(Gather(rs[1..]).error) && forall j :: 0 <= j < i ==> rs[1..][j].Ok?;
      assert forall j :: 0 < j <= i + 1 ==> rs[j] == rs[1..][j - 1];
      assert rs[i + 1] == Err(Gather(rs).error);
    }
  }

  // ---------------------------------------------------------------------------
  // Fields

  /** A field whose text, once names and `*` are replaced, is one term: that term's values, sorted. */
  lemma FieldOfTerm(expr: string, k: Kind, t: string)
    requires ',' !in t && ExpandStar(ReplaceNames(expr, Aliases(k)), k) == t
    ensures ParseField(expr, k) == match ParseTerm(t, k)
                                   case Ok(xs) => Ok(Sort(xs))
                                   case Err(e) => Err(e)
  {
    SplitNone(t, ',');
    TermsStep([t], k);
    assert |[t][1..]| == 0;
    match ParseTerm(t, k)
    case Ok(xs) =>
      assert xs + [] == xs;
      assert ExpandTerms([t], k) == Ok(xs);
    case Err(e) =>
      assert ExpandTerms([t], k) == Err(e);
  }

  /** A number alone is that one value, or rejected as out of range. */
  lemma NumberField(n: nat, k: Kind)
    ensures ParseField(NatToString(n), k) == if InDomain(k, n) then Ok([n]) else Err(OutOfRange)
  {
    var t := NatToString(n);
    NoLetterField(t, k);
    ExpandStarNone(t, k);
    FieldOfTerm(t, k, t);
    NumberTerm(n, k);
  }

  /**
   * `a-b` is every value from a to b, or rejected when an endpoint is out
   * of range; a reversed range such as `5-3` is accepted and gives no value.
   */
  lemma RangeField(a: nat, b: nat, k: Kind)
    ensures ParseField(RangeText(a, b), k)
            == if !InDomain(k, a) || !InDomain(k, b) then Err(RangeBound) else Ok(Progression(a, b + 1, 1))
    ensures InDomain(k, a) && InDomain(k, b) && b < a ==> ParseField(RangeText(a, b), k) == Ok([])
  {
    var t := RangeText(a, b);
    NoLetterField(t, k);
    ExpandStarNone(t, k);
    FieldOfTerm(t, k, t);
    RangeTerm(a, b, k);
    SortSorted(Progression(a, b + 1, 1));
  }

  /** `*` is the field's whole range. */
  lemma StarField(k: Kind)
    ensures ParseField("*", k) == Ok(Progression(Lo(k), Hi(k) + 1, 1))
  {
    var t := RangeText(Lo(k), Hi(k));
    var xs := Progression(Lo(k), Hi(k) + 1, 1);
    StarText(k);
    RangeTerm(Lo(k), Hi(k), k);
    assert ParseTerm(t, k) == Ok(xs);
    SortSorted(xs);
    FieldOfTerm("*", k, t);
  }

  /** Names leave `*` alone, and it becomes the range of the field. */
  lemma StarText(k: Kind)
    ensures ExpandStar(ReplaceNames("*", Aliases(k)), k) == RangeText(Lo(k), Hi(k))
  {
    assert ReplaceNames("*", Aliases(k)) == "*" by {
      NoLetterField("*", k);
    }
    StarRange(k);
  }

  lemma StarRange(k: Kind)
    ensures ExpandStar("*", k) == RangeText(Lo(k), Hi(k))
  {
    assert ExpandStar("*", k) == RangeText(Lo(k), Hi(k)) + ExpandStar("", k);
  }

  /** Names leave `*` with a numeric step alone, and the star becomes the range of the field. */
  lemma StarStepText(d: string, k: Kind)
    requires Digits(d)
    ensures ExpandStar(ReplaceNames("*/" + d, Aliases(k)), k) == RangeText(Lo(k), Hi(k)) + "/" + d
  {
    var expr := "*/" + d;
    assert NoLetter(expr) by {
      assert forall i :: 2 <= i < |expr| ==> expr[i] == d[i - 2];
    }
    NoLetterField(expr, k);
    ExpandStarConcat("*/", d, k);
    ExpandStarNone(d, k);
    StarSlash(k);
  }

  lemma StarSlash(k: Kind)
    ensures ExpandStar("*/", k) == RangeText(Lo(k), Hi(k)) + "/"
  {
    assert "*/"[1..] == "/";
    assert ExpandStar("/", k) == "/";
  }

  /**
   * `*` with a step n: every n-th value of the range from its start, or
   * rejected when n is outside the range (so a step of 0 on the whole range is a step error for the
   * day and month fields) or, failing that, when n is 0.
   */
  lemma StarStepField(n: nat, k: Kind)
    ensures ParseField("*/" + NatToString(n), k)
            == if !InDomain(k, n) then Err(Stepwidth)
               else if n == 0 then Err(ZeroStep)
               else Ok(Progression(Lo(k), Hi(k) + 1, n))
  {
    var d := NatToString(n);
    var expr := "*/" + d;
    var t := RangeText(Lo(k), Hi(k)) + "/" + d;
    StepTerm(Lo(k), Hi(k), n, k);
    if InDomain(k, n) && n != 0 {
      SortSorted(Progression(Lo(k), Hi(k) + 1, n));
    }
    StarStepText(d, k);
    StepTextNoComma(RangeText(Lo(k), Hi(k)), d);
    FieldOfTerm(expr, k, t);
  }

  lemma StepTextNoComma(rng: string, d: string)
    requires ',' !in rng && ',' !in d
    ensures ',' !in rng + "/" + d
  {
    var t := rng + "/" + d;
    assert forall i :: 0 <= i < |t| ==> t[i] == '/' || t[i] in rng || t[i] in d;
  }

  /** A name that no earlier pair carries parses exactly as its number. */
  lemma NameField(k: Kind, i: nat)
    requires i < |Aliases(k)| && Word(Aliases(k)[i].1)
    requires forall j :: 0 <= j < i ==> Aliases(k)[j].1 != Aliases(k)[i].1
    ensures ParseField(Aliases(k)[i].1, k) == ParseField(Aliases(k)[i].0, k)
  {
    AliasesNamed(k);
    ReplaceFirst(Aliases(k)[i].1, Aliases(k), i);
    ReplaceNoLetter(Aliases(k)[i].0, Aliases(k));
  }

  /** Month names: `Jan` is 1, ..., `Dec` is 12. */
  lemma MonthNameField(m: nat)
    requires 1 <= m <= 12
    ensures ParseField(MonthNames[m - 1].1, Month) == Ok([m])
  {
    MonthNameAsNumber(m);
    MonthNumber(m);
  }

  lemma MonthNameAsNumber(m: nat)
    requires 1 <= m <= 12
    ensures ParseField(MonthNames[m - 1].1, Month) == ParseField(MonthNames[m - 1].0, Month)
  {
    MonthNameFacts(m);
    NameField(Month, m - 1);
  }

  lemma MonthNumber(m: nat)
    requires 1 <= m <= 12
    ensures ParseField(MonthNames[m - 1].0, Month) == Ok([m])
  {
    MonthNameFacts(m);
    NumberField(m, Month);
  }

  lemma MonthNameFacts(m: nat)
    requires 1 <= m <= 12
    ensures MonthNames[m - 1].0 == NatToString(m) && Word(MonthNames[m - 1].1)
    ensures forall j :: 0 <= j < m - 1 ==> MonthNames[j].1 != MonthNames[m - 1].1
  {
    if m < 10 {
      assert MonthNames[m - 1].0 == [DigitChar(m)];
    } else {
      assert MonthNames[m - 1].0 == NatToString(1) + [DigitChar(m - 10)];
    }
  }

  /** Weekday names: `Sun` is 0, never 7, `Mon` is 1, ..., `Sat` is 6. */
  lemma WeekdayNameField(d: nat)
    requires d <= 6
    ensures ParseField(WeekdayNames[d].1, Weekday) == Ok([d])
  {
    WeekdayNameAsNumber(d);
    WeekdayNumber(d);
  }

  lemma WeekdayNameAsNumber(d: nat)
    requires d <= 6
    ensures ParseField(WeekdayNames[d].1, Weekday) == ParseField(WeekdayNames[d].0, Weekday)
  {
    assert Word(WeekdayNames[d].1);
    NameField(Weekday, d);
  }

  lemma WeekdayNumber(d: nat)
    requires d <= 6
    ensures ParseField(WeekdayNames[d].0, Weekday) == Ok([d])
  {
    assert WeekdayNames[d].0 == NatToString(d);
    NumberField(d, Weekday);
  }

  /** A field whose text, once names and `*` are replaced, splits into `terms`: their values, sorted. */
  lemma FieldOfTerms(expr: string, k: Kind, terms: seq<string>)
    requires Split(ExpandStar(ReplaceNames(expr, Aliases(k)), k), ',') == terms
    ensures ParseField(expr, k) == match ExpandTerms(terms, k)
                                   case Ok(xs) => Ok(Sort(xs))
                                   case Err(e) => Err(e)
  {
  }

  /** A word that is no name, with a letter in it, is rejected as not a number: `JanJan`, `1Feb`. */
  lemma UnknownWordField(w: string, k: Kind)
    requires Word(w) && exists i :: 0 <= i < |w| && IsLetter(w[i])
    requires forall i :: 0 <= i < |Aliases(k)| ==> Aliases(k)[i].1 != w
    ensures ParseField(w, k) == Err(NotNumeric)
  {
    UnknownWordText(w, k);
    LetterTerm(w, k);
    OneTermField(w, k);
  }

  /** A word that is no name comes through the names and the star replacement as itself. */
  lemma UnknownWordText(w: string, k: Kind)
    requires Word(w) && forall i :: 0 <= i < |Aliases(k)| ==> Aliases(k)[i].1 != w
    ensures ExpandStar(ReplaceNames(w, Aliases(k)), k) == w && ',' !in w
  {
    ReplaceUnknown(w, Aliases(k));
    assert '*' !in w;
    ExpandStarNone(w, k);
  }

  /** A field that names and `*` leave as one term is that term's error when the term fails. */
  lemma OneTermField(w: string, k: Kind)
    requires ',' !in w && ExpandStar(ReplaceNames(w, Aliases(k)), k) == w && ParseTerm(w, k).Err?
    ensures ParseField(w, k) == Err(ParseTerm(w, k).error)
  {
    FieldOfTerm(w, k, w);
  }

  lemma StepNameText(w: string, k: Kind)
    requires Word(w)
    ensures ExpandStar(ReplaceNames("*/" + w, Aliases(k)), k) == RangeText(Lo(k), Hi(k)) + "/" + w
    ensures ',' !in RangeText(Lo(k), Hi(k)) + "/" + w
  {
    ReplaceStep(w, Aliases(k));
    StepNameExpand(w, k);
  }

  lemma StepNameExpand(w: string, k: Kind)
    requires Word(w)
    ensures ExpandStar("*/" + w, k) == RangeText(Lo(k), Hi(k)) + "/" + w
    ensures ',' !in RangeText(Lo(k), Hi(k)) + "/" + w
  {
    assert '*' !in w && ',' !in w;
    ExpandStarConcat("*/", w, k);
    ExpandStarNone(w, k);
    StarSlash(k);
    StepTextNoComma(RangeText(Lo(k), Hi(k)), w);
  }

  /** A name in the step position is not replaced, so it is rejected as not a number. */
  lemma StepNameField(w: string, k: Kind)
    requires Word(w) && exists i :: 0 <= i < |w| && IsLetter(w[i])
    ensures ParseField("*/" + w, k) == Err(NotNumeric)
  {
    var rng := RangeText(Lo(k), Hi(k));
    var t := rng + "/" + w;
    var i :| 0 <= i < |w| && IsLetter(w[i]);
    assert t[|rng| + 1 + i] == w[i];
    LetterTerm(t, k);
    StepNameText(w, k);
    FieldOfTerm("*/" + w, k, t);
  }

  /** The two words the source's comment names as what must not pass for a month. */
  lemma MisspelledMonths(w: string)
    requires w == "JanJan" || w == "1Feb"
    ensures ParseField(w, Month) == Err(NotNumeric)
  {
    assert IsLetter(w[1]) && Word(w);
    UnknownWordField(w, Month);
  }

  /** Sorting keeps exactly the values it was given. */
  lemma SortMembers(xs: seq<int>)
    ensures forall x :: x in Sort(xs) <==> x in xs
  {
    assert forall x :: x in Sort(xs) <==> x in multiset(xs);
  }

  /**
   * A field passes exactly when every one of its terms passes, its values
   * are those of its terms, and when it fails the error is that of the
   * first bad term.
   */
  lemma FieldMeaning(expr: string, k: Kind, terms: seq<string>)
    requires Split(ExpandStar(ReplaceNames(expr, Aliases(k)), k), ',') == terms
    ensures ParseField(expr, k).Ok? <==> forall i :: 0 <= i < |terms| ==> ParseTerm(terms[i], k).Ok?
    ensures ParseField(expr, k).Ok? ==>
              forall x :: x in ParseField(expr, k).value <==> exists i :: 0 <= i < |terms| && ParseTerm(terms[i], k).Ok? && x in ParseTerm(terms[i], k).value
    ensures ParseField(expr, k).Err? ==>
              exists i :: 0 <= i < |terms| && ParseTerm(terms[i], k) == Err(ParseField(expr, k).error)
                          && forall j :: 0 <= j < i ==> ParseTerm(terms[j], k).Ok?
  {
    ExpandTermsOk(terms, k);
    ExpandTermsValues(terms, k);
    ExpandTermsFirstError(terms, k);
    FieldOfTerms(expr, k, terms);
    if ExpandTerms(terms, k).Ok? {
      SortMembers(ExpandTerms(terms, k).value);
    }
  }

  // ---------------------------------------------------------------------------
  // Entries

  /** Five fields joined by spaces are read back as those five fields. */
  lemma EntryFields(fs: seq<string>)
    requires |fs| == 5 && forall i :: 0 <= i < 5 ==> |fs[i]| > 0 && NoSpace(fs[i])
    ensures ParseEntry(Join(fs, ' ')).Ok? <==> FieldsParse(fs)
    ensures ParseEntry(Join(fs, ' ')).Ok? ==>
              ParseEntry(Join(fs, ' ')).value
              == Schedule(ParseField(fs[0], Minute).value, ParseField(fs[1], Hour).value, ParseField(fs[2], Day).value,
                          ParseField(fs[3], Month).value, ParseField(fs[4], Weekday).value)
  {
    TokensJoin(fs);
    ParseEntryMeaning(Join(fs, ' '));
    ParseEntryValue(Join(fs, ' '));
  }

  /** An entry that is a single word, such as the `@daily` macro, is rejected: it is not five fields. */
  lemma SingleWordEntry(w: string)
    requires |w| > 0 && NoSpace(w)
    ensures ParseEntry(w) == Err(WrongFieldCount)
  {
    TokensHead(w, "");
    assert w + "" == w;
  }

  /** `*` covers the field's whole range, value by value. */
  lemma StarFull(k: Kind)
    ensures ParseField("*", k).Ok? && Full(ParseField("*", k).value, Lo(k), Hi(k))
  {
    StarField(k);
  }

  /** The fields `0 0 * * *`: midnight on every day of every month, every weekday allowed. */
  lemma DailyEntry(fs: seq<string>)
    requires fs == ["0", "0", "*", "*", "*"]
    ensures ParseEntry(Join(fs, ' ')).Ok?
    ensures ParseEntry(Join(fs, ' ')).value.minutes == [0] && ParseEntry(Join(fs, ' ')).value.hours == [0]
    ensures Full(ParseEntry(Join(fs, ' ')).value.days, 1, 31) && Full(ParseEntry(Join(fs, ' ')).value.months, 1, 12)
    ensures Full(ParseEntry(Join(fs, ' ')).value.weekdays, 0, 7)
  {
    assert NoSpace(fs[0]) && NoSpace(fs[1]) && NoSpace(fs[2]) && NoSpace(fs[3]) && NoSpace(fs[4]);
    EntryFields(fs);
    DailyClock(fs);
    DailyStars(fs);
  }

  lemma DailyClock(fs: seq<string>)
    requires fs == ["0", "0", "*", "*", "*"]
    ensures ParseField(fs[0], Minute) == Ok([0]) && ParseField(fs[1], Hour) == Ok([0])
  {
    assert fs[0] == NatToString(0) && fs[1] == NatToString(0);
    NumberField(0, Minute);
    NumberField(0, Hour);
  }

  lemma DailyStars(fs: seq<string>)
    requires |fs| == 5 && fs[2] == "*" && fs[3] == "*" && fs[4] == "*"
    ensures ParseField(fs[2], Day).Ok? && Full(ParseField(fs[2], Day).value, 1, 31)
    ensures ParseField(fs[3], Month).Ok? && Full(ParseField(fs[3], Month).value, 1, 12)
    ensures ParseField(fs[4], Weekday).Ok? && Full(ParseField(fs[4], Weekday).value, 0, 7)
  {
    StarFull(Day);
    StarFull(Month);
    StarFull(Weekday);
  }
}
