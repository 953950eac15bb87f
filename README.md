# SimpleCrontabEntry, modelled in Dafny

A model of `SimpleCrontabEntry` from arritranco's scheduler (`arritranco/scheduler/cron.py`).
The object holds the first five fields of a crontab line. It answers three
questions about a given time: when the entry runs next (`next_run`), which
run comes before that one, found by walking back from `next_run`
(`prev_run`), and whether the time lies outside the expiration window after
both of those runs (`is_expired`).

The model follows the source part by part:

| module | file | what it holds |
|---|---|---|
| `Wrappers` | `wrappers.dfy` | `Option` and `Result` |
| `Text` | `text.dfy` | `re.findall("\S+", ...)`, `str.split`, `int()` and `str()` on decimal numerals |
| `Calendar` | `calendar.dfy` | `datetime` arithmetic at minute resolution: day numbers, `weekday()`, `monthrange`, `timedelta` steps |
| `CronFields` | `fields.dfy` | the five field kinds and their ranges, `range(a, b, step)`, the expanded schedule |
| `CronSearch` | `search.dfy` | `__next_time` and `__prev_time` |
| `CronParse` | `parse.dfy` | `checkfield`, `_is_valid` and the parse that `set_value` runs |
| `CronNext` | `next.dfy` | `__next_month`, `__next_day`, `__next_hour`, `__next_minute`, `next_run` |
| `CronPrev` | `prev.dfy` | `prev_run` |
| `Crontab` | `entry.dfy` | the `SimpleCrontabEntry` class, `is_expired`, and the loops of `_is_valid` and `prev_run` as methods |

The parser works on text, as the source does:
- Month and weekday names are replaced one `re.sub` at a time.
- `*` becomes `lo-hi`.
- The field is split on commas.
- Each term is checked in the source's order: the step, then the range, then the number, then whether it is in range.
- The values are sorted, with duplicates kept.

The methods `CronParse.ReplaceLoop`, `CronParse.TermsLoop`, `CronParse.CheckField`, `Crontab.IsValid`,
`Crontab.SeekDay`, `Crontab.DayMonthLoop` and `Crontab.PrevFrom` carry the source's loops. Each is proved
equal to a specification function, and the properties are proved about that function.

The forward resolver (`__next_*`) passes one mutable `sol` record between mutually recursive
calls. The model has one function per call. Each function takes the record and returns the new
record together with the call's boolean result. Recursion is bounded by a `fuel` argument, which
stands in for the interpreter's recursion limit. An entry that no date satisfies recurses forever
in the source and ends in `RecursionLimit` here.

Errors the source raises are `Result` values here:
- `set_value` rejects an entry with `WrongFieldCount` or `BadField(kind, why)`.
- `next_run` and `prev_run` fail with a `Fault`:
  - `EmptyList`: an empty field list;
  - `NotInList`: `list.index` on an unlisted value;
  - `InvalidDate`: `datetime` raising on a date such as 30 February;
  - `RecursionLimit`;
  - `SearchLimit`: the day search of `prev_run` giving up.

## Model

| member | source | states |
|---|---|---|
| `Text.Tokens` | arritranco/scheduler/cron.py:41 | the whitespace-separated tokens of the entry: non-empty, space-free, in order |
| `Text.TokensJoin` | arritranco/scheduler/cron.py:41 | tokens joined by single spaces are read back as the same tokens |
| `Text.TokensHead` | arritranco/scheduler/cron.py:41 | a space-free word followed by a space is read as that token, then the rest |
| `Text.Split` | arritranco/scheduler/cron.py:145 | `split(",")` returns at least one part, and no part contains the separator |
| `Text.JoinSplit` | arritranco/scheduler/cron.py:145 | joining the parts of a split gives back the original text |
| `Text.SplitJoin` | arritranco/scheduler/cron.py:145 | splitting joined separator-free parts gives back the parts |
| `Text.NatToString` | arritranco/scheduler/cron.py:143 | `str(n)` is all digits, with no letter, space, `-`, `/`, `,` or `*` |
| `Text.NatToStringValue` | arritranco/scheduler/cron.py:143 | reading back what `str(n)` wrote gives `n` |
| `Text.DigitSpan` | arritranco/scheduler/cron.py:146-147 | the `\d+` run at the head of the text: every character in it is a digit and the one after it is not |
| `Text.WordSpan` | arritranco/scheduler/cron.py:141 | the `\w` run at the head of the text: every character in it is a word character and the one after it is not |
| `Text.Find` | arritranco/scheduler/cron.py:146 | the position of the first `/`: none occurs before it, and it holds a `/` unless the text has none |
| `Text.SplitNone` | arritranco/scheduler/cron.py:145 | text without the separator splits into itself alone |
| `Calendar.DaysInMonth` | arritranco/scheduler/cron.py:439-442 | `monthrange(y, m)[1]` is 28 to 31, and 28 exactly for February of a common year |
| `Calendar.DayOfWeek` | arritranco/scheduler/cron.py:450 | `weekday()` lies in 0..6 |
| `Calendar.AddDays` | arritranco/scheduler/cron.py:428 | moving by whole days gives a real date and keeps the time of day |
| `Calendar.AddDaysOrdinal` | arritranco/scheduler/cron.py:504 | subtracting `n` days moves the day number by exactly `n` |
| `Calendar.AddDaysWeekday` | arritranco/scheduler/cron.py:463-465 | moving `n` days moves `weekday()` by `n` modulo 7 |
| `Calendar.OrdinalIncreasing` | arritranco/scheduler/cron.py:518-519 | a date's day number is strictly increasing in calendar order |
| `Calendar.OrdinalInjective` | arritranco/scheduler/cron.py:518-519 | two real dates with the same day number are the same date |
| `Calendar.AddMinutesWithinHour` | arritranco/scheduler/cron.py:403-405 | subtracting `base.minute - p` minutes sets the minute to `p` and changes nothing else |
| `Calendar.AddHoursWithinDay` | arritranco/scheduler/cron.py:410-412 | subtracting `base.hour - p` hours sets the hour to `p` and changes nothing else |
| `Calendar.BeforeIsEarlier` | arritranco/scheduler/cron.py:547 | comparing datetimes field by field agrees with comparing their minute counts |
| `Calendar.AddMinutesMinutes` | arritranco/scheduler/cron.py:542-546 | `t + timedelta(minutes=n)` lies exactly `n` minutes later on the linear time scale |
| `Calendar.AddDaysShort` | arritranco/scheduler/cron.py:465 | a step of under 28 days stays in the month exactly when the day number fits |
| `Calendar.Weekdays2024` | arritranco/scheduler/cron.py:450 | anchors the weekday count: 2024-01-07 is a Sunday (6) and 2024-03-01 is a Friday (4) |
| `Calendar.LastOfPreviousMonth` | arritranco/scheduler/cron.py:529 | the last day of the month before, a real date in an earlier month at the same time of day |
| `Calendar.AddDaysBackToEnd` | arritranco/scheduler/cron.py:529 | `tmp_base - timedelta(days=tmp_base.day)` is the last day of the previous month |
| `Calendar.AddDaysBackOne` | arritranco/scheduler/cron.py:428 | one day back is the previous day of the month, or the last day of the previous month from day 1, and always an earlier date |
| `Calendar.AddDaysBackEarlier` | arritranco/scheduler/cron.py:504 | subtracting a count of one day or more lands on an earlier date |
| `Calendar.AddDaysWithin` | arritranco/scheduler/cron.py:447 | a step back that keeps the day number inside the month only changes the day |
| `Calendar.AddDaysBackAcross` | arritranco/scheduler/cron.py:438-445 | going back `no_days - prev_day + base.day` days lands on day `prev_day` of the previous month |
| `Calendar.AddDaysBackMonth` | arritranco/scheduler/cron.py:463-465 | a step back of under four weeks leaves the month exactly when it reaches day 0 or below |
| `Calendar.AddHours` | arritranco/scheduler/cron.py:410-412 | `t + timedelta(hours=n)` is a real date with an hour of the day and the same minute |
| `Calendar.AddMinutes` | arritranco/scheduler/cron.py:403-405 | `t + timedelta(minutes=n)` is a real date with an hour and a minute of the day |
| `Calendar.OrdinalWithinYear` | arritranco/scheduler/cron.py:518-519 | the day number `date` subtraction counts with lies within its year's |
| `Calendar.OrdinalOrder` | arritranco/scheduler/cron.py:518-519 | on real dates, calendar order is the order of the day numbers |
| `CronFields.Progression` | arritranco/scheduler/cron.py:166-177 | `range(a, stop, step)` is empty exactly when `a >= stop`, ascending, and within `[a, stop)` |
| `CronFields.ProgressionValues` | arritranco/scheduler/cron.py:170-176 | the i-th value of `range(a, stop, step)` is `a + i*step`, and one more step would reach `stop` |
| `CronSearch.AtLeast` | arritranco/scheduler/cron.py:215 | the list comprehension keeps exactly the listed values `>= v`, in order |
| `CronSearch.NextTime` | arritranco/scheduler/cron.py:213-232 | fails only on an empty list; otherwise gives the least listed value `>= v`, or wraps to the first value with carry exactly when none is `>= v` |
| `CronSearch.NextTimeFirst` | arritranco/scheduler/cron.py:213-232 | from a value no larger than any listed one, the search gives the first listed value without carry |
| `CronSearch.NextTimeAt` | arritranco/scheduler/cron.py:213-232 | on a sorted list, the search from `v` gives the first listed value that reaches `v`, without carry |
| `CronSearch.IndexOf` | arritranco/scheduler/cron.py:239 | `list.index` gives the first position holding `v` |
| `CronSearch.PrevTime` | arritranco/scheduler/cron.py:234-243 | fails exactly when `v` is not listed; otherwise gives the greatest listed value `< v`, or wraps to the last value with carry exactly when none is smaller |
| `CronSearch.PrevTimeFull` | arritranco/scheduler/cron.py:234-243 | on a full range, the previous value is `v - 1`, or `hi` with carry at `lo` |
| `CronParse.StepForm` | arritranco/scheduler/cron.py:146 | a text matching the step pattern has a range part that matches the range pattern |
| `CronParse.FormChars` | arritranco/scheduler/cron.py:146-147 | both patterns accept only digits, dashes and slashes |
| `CronParse.SubName` | arritranco/scheduler/cron.py:141 | one `re.sub` only brings in characters of the text or of the replacement, and replacing a name by itself changes nothing |
| `CronParse.ReplaceNames` | arritranco/scheduler/cron.py:134-141 | the whole name replacement only brings in characters of the text or of the alias numbers |
| `CronParse.RangeForm` | arritranco/scheduler/cron.py:147 | the range pattern matches only text made of digits and dashes |
| `CronParse.ParseTerm` | arritranco/scheduler/cron.py:150-191 | an accepted term gives ascending values within the field's range; `ZeroStep` comes only from a step pattern whose step is 0; a bare number gives itself when in range and `OutOfRange` otherwise |
| `CronParse.ExpandTerms` | arritranco/scheduler/cron.py:149-191 | a list of terms passes exactly when every term passes, and then every value lies within the field's range |
| `CronParse.Insert` | arritranco/scheduler/cron.py:193 | inserting into a sorted list keeps it sorted and adds exactly one copy of the value |
| `CronParse.Sort` | arritranco/scheduler/cron.py:193 | `sort()` returns an ascending permutation of its input |
| `CronParse.SortSorted` | arritranco/scheduler/cron.py:193 | sorting a list that is already sorted leaves it unchanged |
| `CronParse.SortMembers` | arritranco/scheduler/cron.py:193 | sorting keeps exactly the values it was given |
| `CronParse.ParseField` | arritranco/scheduler/cron.py:108-195 | an accepted field is ascending and within the field's range |
| `CronParse.ReplaceLoop` | arritranco/scheduler/cron.py:134-141 | the `popitem`/`re.sub` loop performs the pairs' substitutions in pop order |
| `CronParse.TermResults` | arritranco/scheduler/cron.py:150 | the i-th result is the i-th term's own result |
| `CronParse.TermsStep` | arritranco/scheduler/cron.py:150-191 | a list of terms yields the first term's values followed by the rest's, or the first term's error |
| `CronParse.ExpandTermsGather` | arritranco/scheduler/cron.py:150-191 | checking terms one after another equals gathering their separate results |
| `CronParse.GatherStep` | arritranco/scheduler/cron.py:150-191 | one pass of the term loop either keeps the loop invariant or stops with that term's error |
| `CronParse.TermsLoop` | arritranco/scheduler/cron.py:149-191 | the loop over the comma terms gives all the terms' values in order, or the first bad term's error |
| `CronParse.CheckField` | arritranco/scheduler/cron.py:108-195 | `checkfield` as written (names, star, split, terms, sort) computes `ParseField` |
| `CronParse.FieldResults` | arritranco/scheduler/cron.py:203-204 | one `checkfield` result per field |
| `CronParse.GatherFields` | arritranco/scheduler/cron.py:200-211 | on success, one list per remaining field; every failure names a bad field |
| `CronParse.GatherFieldsOk` | arritranco/scheduler/cron.py:200-211 | gathering succeeds exactly when every remaining field passes, and keeps their values in order |
| `CronParse.GatherFieldsValues` | arritranco/scheduler/cron.py:200-211 | a successful gathering lists the five fields' values in entry order |
| `CronParse.ThenFieldsEmpty` | arritranco/scheduler/cron.py:203 | before the first field is checked, the gathering of the rest is the whole result |
| `CronParse.GatherFieldsStep` | arritranco/scheduler/cron.py:203-207 | a bad field stops the loop with that field's error; a good one joins the fields already checked |
| `CronParse.FieldResultsOk` | arritranco/scheduler/cron.py:193-195 | every field that passes is ascending and within its own field's range |
| `CronParse.FieldResultsKinds` | arritranco/scheduler/cron.py:45-51 | the five tokens are checked as minute, hour, day, month and weekday, in that order |
| `CronParse.GatherFieldsWellFormed` | arritranco/scheduler/cron.py:200-211 | fields that each pass gather into a well-formed schedule |
| `CronParse.ParseEntry` | arritranco/scheduler/cron.py:39-52 | an accepted entry yields a well-formed schedule: each field ascending and within range |
| `CronParse.ParseEntryMeaning` | arritranco/scheduler/cron.py:39-52 | an entry without exactly five tokens is `WrongFieldCount`; an entry is accepted exactly when it has five tokens and each passes `checkfield` for its field |
| `CronParse.ParseEntryValue` | arritranco/scheduler/cron.py:45-51 | an accepted entry's schedule holds the five `checkfield` results, minute first |
| `CronParse.EntryFields` | arritranco/scheduler/cron.py:39-52 | five space-free fields joined by spaces are accepted exactly when each field passes, and then give those fields' values |
| `CronParse.SingleWordEntry` | arritranco/scheduler/cron.py:41-43 | a one-word entry such as `@daily` is rejected for its field count; macros are not expanded |
| `CronParse.AliasesNamed` | arritranco/scheduler/cron.py:82-106 | every alias name starts with a letter and every alias number has no letter |
| `CronParse.ReplaceNoLetter` | arritranco/scheduler/cron.py:137-141 | text without letters passes through the name replacement unchanged |
| `CronParse.NoLetterField` | arritranco/scheduler/cron.py:134-141 | numeric field text passes through its field's name replacement unchanged |
| `CronParse.SubNameNoLetter` | arritranco/scheduler/cron.py:141 | a substitution finds nothing to replace in text without letters |
| `CronParse.SubNameWord` | arritranco/scheduler/cron.py:141 | a whole word is replaced exactly when it equals the name and does not follow a `/` |
| `CronParse.ReplaceUnknown` | arritranco/scheduler/cron.py:137-141 | a word that is no alias passes through the replacement unchanged |
| `CronParse.ReplaceFirst` | arritranco/scheduler/cron.py:137-141 | a name becomes the number of the first pair carrying it; later pairs leave that number alone |
| `CronParse.SubNameStep` | arritranco/scheduler/cron.py:141 | a word after `*/` follows a slash and so is never replaced |
| `CronParse.ReplaceStep` | arritranco/scheduler/cron.py:130-141 | a step after `*/` survives the whole name replacement |
| `CronParse.ExpandStarNone` | arritranco/scheduler/cron.py:143 | the star replacement changes text only where a `*` appears |
| `CronParse.ExpandStarConcat` | arritranco/scheduler/cron.py:143 | the star replacement works piecewise over concatenation |
| `CronParse.StarRange` | arritranco/scheduler/cron.py:143 | `*` becomes `lo-hi` for its field |
| `CronParse.StarText` | arritranco/scheduler/cron.py:134-143 | `*` passes the name replacement unchanged and then becomes `lo-hi` |
| `CronParse.StarStepText` | arritranco/scheduler/cron.py:134-143 | `*/n` becomes `lo-hi/n` |
| `CronParse.RangeText` | arritranco/scheduler/cron.py:143 | the text `a-b` contains no slash, comma, star or letter |
| `CronParse.RangeFormOf` | arritranco/scheduler/cron.py:147 | the range pattern reads `a-b` back as `(a, b)` |
| `CronParse.StepFormOf` | arritranco/scheduler/cron.py:146 | the step pattern reads `a-b/n` back as the range text and `n` |
| `CronParse.NumberTerm` | arritranco/scheduler/cron.py:179-187 | a bare number gives itself when in range and `OutOfRange` otherwise |
| `CronParse.RangeTerm` | arritranco/scheduler/cron.py:166-177 | `a-b` gives `a..b` when both ends are in range, and `RangeBound` otherwise |
| `CronParse.StepTerm` | arritranco/scheduler/cron.py:155-177 | `a-b/n` checks the step against the field's range first, then the ends, then rejects step 0, and gives every n-th value |
| `CronParse.SteppedTerm` | arritranco/scheduler/cron.py:155-177 | any term that matches the step pattern is checked in that same order |
| `CronParse.LetterTerm` | arritranco/scheduler/cron.py:179-181 | a term with a letter left in it is `NotNumeric` |
| `CronParse.ExpandTermsOk` | arritranco/scheduler/cron.py:150-191 | a list of terms passes exactly when every term passes |
| `CronParse.ExpandTermsValues` | arritranco/scheduler/cron.py:150-191 | the values of a passing list are exactly the union of its terms' values |
| `CronParse.ExpandTermsFirstError` | arritranco/scheduler/cron.py:150-191 | a failing list reports the error of its first bad term, and every earlier term passes |
| `CronParse.GatherOk` | arritranco/scheduler/cron.py:150-191 | gathering succeeds exactly when every result does |
| `CronParse.GatherValues` | arritranco/scheduler/cron.py:188-191 | the gathered values are exactly the union of the results' values |
| `CronParse.GatherFirstError` | arritranco/scheduler/cron.py:150-191 | a failed gathering reports the first error, and every earlier result succeeded |
| `CronParse.FieldOfTerm` | arritranco/scheduler/cron.py:143-195 | a field that is a single term gives that term's values, sorted, or its error |
| `CronParse.FieldOfTerms` | arritranco/scheduler/cron.py:143-195 | a field gives its terms' values, sorted, or the first error |
| `CronParse.FieldMeaning` | arritranco/scheduler/cron.py:108-195 | a field passes exactly when every comma term passes; its values are exactly the terms' values; a failure reports the first bad term's error |
| `CronParse.NumberField` | arritranco/scheduler/cron.py:179-195 | a number alone is that one value, or `OutOfRange` |
| `CronParse.RangeField` | arritranco/scheduler/cron.py:166-195 | `a-b` gives `a..b`, or `RangeBound`; a reversed range with both ends in range is accepted and empty |
| `CronParse.StarField` | arritranco/scheduler/cron.py:143-195 | `*` gives the field's whole range |
| `CronParse.StarFull` | arritranco/scheduler/cron.py:143-195 | `*` lists every value of the field from lo to hi, once each |
| `CronParse.StarStepField` | arritranco/scheduler/cron.py:143-195 | `*/n` gives every n-th value of the range; it is `Stepwidth` when `n` is out of range and `ZeroStep` when `n` is 0 |
| `CronParse.NameField` | arritranco/scheduler/cron.py:134-141 | a name no earlier pair carries parses exactly as its number |
| `CronParse.MonthNameField` | arritranco/scheduler/cron.py:82-95 | `Jan` to `Dec` are the months 1 to 12 |
| `CronParse.MonthNameAsNumber` | arritranco/scheduler/cron.py:82-95 | a month name parses exactly as its number |
| `CronParse.MonthNumber` | arritranco/scheduler/cron.py:82-95 | each month number alone is that one month |
| `CronParse.MonthNameFacts` | arritranco/scheduler/cron.py:82-95 | each month's number is `str(m)`, and its name is a word that no earlier pair carries |
| `CronParse.WeekdayNameField` | arritranco/scheduler/cron.py:97-106 | `Sun` is 0, never 7; `Mon` to `Sat` are 1 to 6 |
| `CronParse.WeekdayNameAsNumber` | arritranco/scheduler/cron.py:97-106 | a weekday name parses exactly as the number it is replaced by |
| `CronParse.WeekdayNumber` | arritranco/scheduler/cron.py:97-106 | each weekday number 0 to 6 alone is that one weekday |
| `CronParse.UnknownWordField` | arritranco/scheduler/cron.py:130-133 | a word that is no name but contains a letter is `NotNumeric` |
| `CronParse.MisspelledMonths` | arritranco/scheduler/cron.py:130-133 | `JanJan` and `1Feb`, the comment's own examples, are rejected as not numeric |
| `CronParse.StepNameText` | arritranco/scheduler/cron.py:132-143 | `*/word` keeps the word and becomes `lo-hi/word` |
| `CronParse.StepNameExpand` | arritranco/scheduler/cron.py:143 | the star of `*/word` expands and the word is kept |
| `CronParse.StepNameField` | arritranco/scheduler/cron.py:132-133 | a name used as a step is never replaced, so the field is `NotNumeric` |
| `CronParse.DailyEntry` | arritranco/scheduler/cron.py:59 | `0 0 * * *` (the `@daily` expansion) parses to midnight with every day, month and weekday listed |
| `CronParse.DailyClock` | arritranco/scheduler/cron.py:59 | its minute and hour fields are exactly `[0]` |
| `CronParse.DailyStars` | arritranco/scheduler/cron.py:143 | its day, month and weekday stars list 1..31, 1..12 and 0..7 |
| `CronNext.CronDow` | arritranco/scheduler/cron.py:457-460 | maps crontab weekday numbers (Monday 1, Sunday 0 or 7) to `weekday()` numbers (Monday 0, Sunday 6) |
| `CronNext.NextMonth` | arritranco/scheduler/cron.py:245-258 | the month is listed; `True` means `sol` only took that month; `False` means it moved to a later month and fully settled there; it never moves backwards |
| `CronNext.EnterMonth` | arritranco/scheduler/cron.py:253-257 | entering a month gives a scheduled minute no earlier than that month |
| `CronNext.DayProbe` | arritranco/scheduler/cron.py:288-301 | the search loop ends on a real date whose month is listed; either nothing moved or day 1 of a later month; a valid listed day stops it at once |
| `CronNext.Settle` | arritranco/scheduler/cron.py:376-383 | the result is `True` exactly when the day kept its value; otherwise hour and minute are reset to listed values on a later date |
| `CronNext.DayTail` | arritranco/scheduler/cron.py:376-383 | taking the listed day gives a matching day no earlier than asked, moving on a month when the day list wrapped |
| `CronNext.NextDay` | arritranco/scheduler/cron.py:282-383 | the day matches the day and weekday rules and is no earlier than asked; a moved day is a later date with a listed hour and minute; an existing listed day is kept (when only weekdays decide, its weekday must be listed too) |
| `CronNext.DayChoice` | arritranco/scheduler/cron.py:303-383 | the chosen day matches the day rule and is no earlier than asked; a moved day is a later date with a listed hour and minute; the asked day is kept when it is the listed day offered, without carry (and, when only weekdays decide, its weekday is listed) |
| `CronNext.WeekdayChoice` | arritranco/scheduler/cron.py:303-374 | when some weekday is missing from the list, the chosen day matches and is no earlier than asked |
| `CronNext.NearestDay` | arritranco/scheduler/cron.py:308-374 | the chosen day matches the day rule and is no earlier than asked; a moved day is a later date with a listed hour and minute; the asked day is kept when it is the listed day offered, without carry (and, when only weekdays decide, the weekday lies 0 days ahead) |
| `CronNext.WeekdayDiff` | arritranco/scheduler/cron.py:304-316 | fails only on an empty weekday list; otherwise the distance is 0..13 days and lands on a listed weekday; it is 0 when today is listed under its Monday-1 number |
| `CronNext.WeekdayStep` | arritranco/scheduler/cron.py:316-328 | the weekday target lies in the same month exactly when the day number fits, and then it is a listed weekday |
| `CronNext.WeekdayTarget` | arritranco/scheduler/cron.py:316-326 | a distance that lands on a listed weekday inside the month gives a listed weekday |
| `CronNext.MonthRoll` | arritranco/scheduler/cron.py:328-340 | when the weekday falls in a later month, the result is a fully settled scheduled minute in a later month |
| `CronNext.NextHour` | arritranco/scheduler/cron.py:267-279 | the hour is listed and no earlier than asked; `False` means a later hour or day with a listed minute; a listed hour is kept |
| `CronNext.NextMinute` | arritranco/scheduler/cron.py:260-265 | the minute is listed and no earlier than asked, and the other fields stay scheduled; a listed minute is kept |
| `CronNext.Resolve` | arritranco/scheduler/cron.py:386-395 | the resolved record is scheduled and no earlier than `time` |
| `CronNext.ResolveDay` | arritranco/scheduler/cron.py:391-393 | once the month of `time` is listed, the result is scheduled and no earlier than `time` |
| `CronNext.ResolveHour` | arritranco/scheduler/cron.py:393-394 | once the date is settled, the result is scheduled and no earlier than `time` |
| `CronNext.ResolveMinute` | arritranco/scheduler/cron.py:394 | once date and hour are settled, the result is scheduled and no earlier than `time` |
| `CronNext.NextRun` | arritranco/scheduler/cron.py:386-396 | `next_run(time)` is a real timestamp the entry fires at, and never earlier than `time` |
| `CronNext.NextRunFixpoint` | arritranco/scheduler/cron.py:282-396 | a scheduled minute is its own next run when its day is listed (with its weekday listed as Monday 1 ... Sunday 7 when only weekdays decide), or when the weekdays take part, its weekday is listed under that number and the listed day offered for it exists in its month |
| `CronNext.WeekdayDiffZero` | arritranco/scheduler/cron.py:304-316 | a weekday listed under its Monday-1 number lies 0 days ahead |
| `CronNext.WeekdayGap` | arritranco/scheduler/cron.py:304-316 | without a 0 in the weekday list, no day from `day` up to the weekday `diff` days on falls on a listed weekday |
| `CronNext.NextDayWeekdayKeeps` | arritranco/scheduler/cron.py:282-374 | with the weekdays taking part, a day whose weekday is listed is kept when the listed day offered for it exists in the month |
| `CronNext.DayChoiceKeeps` | arritranco/scheduler/cron.py:303-374 | with the weekdays taking part, the choice of day keeps a day whose weekday is listed |
| `CronNext.NextDayUnfold` | arritranco/scheduler/cron.py:282-383 | `__next_day` is its search loop followed by its choice of day |
| `CronNext.DayProbeMoves` | arritranco/scheduler/cron.py:288-301 | the search loop moves to a later month when the day, or the listed day offered for it, does not exist |
| `CronNext.DayProbeHere` | arritranco/scheduler/cron.py:288-301 | the search loop stops at once with the listed day `__next_time` offers when both days exist |
| `CronNext.DayTailFacts` | arritranco/scheduler/cron.py:376-383 | without a carry the listed day is taken in this month, kept exactly when it is the asked day, and a moved day starts at the first listed hour and minute; with a carry the result lies in a later month |
| `CronNext.DayTailHere` | arritranco/scheduler/cron.py:376-383 | without a carry the listed day is taken in this month |
| `CronNext.NextMinuteFirst` | arritranco/scheduler/cron.py:260-265 | `__next_minute(0, sol)` takes the first listed minute and changes nothing else |
| `CronNext.NextHourFirst` | arritranco/scheduler/cron.py:267-279 | `__next_hour(0, sol)` takes the first listed hour and keeps the date; when it moved on, the minute is the first listed one |
| `CronNext.SettleFacts` | arritranco/scheduler/cron.py:376-383 | the ending of `__next_day` keeps the date it is given, and a moved day starts at the first listed hour and minute |
| `CronNext.SettleMoved` | arritranco/scheduler/cron.py:379-382 | when the day moved, the ending of `__next_day` sets the first listed hour and minute |
| `CronNext.NearestDayPick` | arritranco/scheduler/cron.py:308-374 | the day taken is the listed weekday `diff` days ahead when only weekdays decide, when the day of month carried, or when the weekday comes first; otherwise it is the listed day of month; the month is kept |
| `CronNext.NearestDayWeekday` | arritranco/scheduler/cron.py:308-374 | when only weekdays decide, the day of month carried or the weekday comes first, the weekday `diff` days ahead is taken |
| `CronNext.NearestDayListed` | arritranco/scheduler/cron.py:364-374 | when the listed day of month did not carry and comes no later than the weekday, it is taken |
| `CronNext.NearestDayWeekdayTaken` | arritranco/scheduler/cron.py:308-363 | when the weekday comes first or the day of month carried, the result is the ending of `__next_day` on the weekday |
| `CronNext.WeekdayChoiceNear` | arritranco/scheduler/cron.py:308-374 | when the listed weekday lies in the month, the weekday choice takes the nearer of it and the listed day |
| `CronNext.WeekdayChoiceEarliest` | arritranco/scheduler/cron.py:303-374 | with the weekdays taking part and no 0 among them, a day settled in the same month is the first day from `day` on that satisfies the day rule |
| `CronNext.DayTailEarliest` | arritranco/scheduler/cron.py:344-383 | when the listed weekday lies beyond the month, the listed day of month taken instead is the first run day from `day` on |
| `CronNext.NearestDayFacts` | arritranco/scheduler/cron.py:308-374 | with no listed weekday before `day + diff`, the day taken is in the same month and is the first run day from `day` on |
| `CronNext.DayChoiceEarliest` | arritranco/scheduler/cron.py:303-383 | a day the choice settles on in the same month is the first day from `day` on that satisfies the day rule (no 0 among the weekdays when they take part) |
| `CronNext.NextDayEarliest` | arritranco/scheduler/cron.py:282-383 | `__next_day(day, sol)`, when it stays in the month of `sol`, lands on the first run day from `day` on |
| `CronNext.NextDayHereEarliest` | arritranco/scheduler/cron.py:282-383 | the same when the day and the listed day offered for it exist |
| `CronNext.NextDayHere` | arritranco/scheduler/cron.py:282-383 | when the day and the listed day offered for it exist, `__next_day` is the choice of day from `day` itself |
| `CronNext.NextDayMovesOn` | arritranco/scheduler/cron.py:288-301 | otherwise `__next_day` lands in a later month |
| `CronNext.NextDayFrom` | arritranco/scheduler/cron.py:282-383 | `__next_day` is the outcome of its search loop followed by its choice of day |
| `CronNext.NextRunEarliest` | arritranco/scheduler/cron.py:386-396 | when the month of `time` is listed, its day is not a run day and `next_run` stays in the month, the result is a later day, no day in between is a run day, and it is at the first listed hour and minute |
| `CronNext.ResolveDayAfterDay` | arritranco/scheduler/cron.py:392-395 | `next_run` never resolves to a date before the one `__next_day` settled on |
| `CronNext.NextRunDayKept` | arritranco/scheduler/cron.py:392-396 | when `__next_day` keeps the day and `__next_hour` the hour, `next_run` is what `__next_minute` gives |
| `CronNext.NextRunDayMoved` | arritranco/scheduler/cron.py:392-396 | when `__next_day` moves the day, `next_run` is the `sol` it leaves |
| `CronNext.NextRunNoDays` | arritranco/scheduler/cron.py:386-396 | with no day of month listed, `next_run` fails with `EmptyList`: every path reaches the `__next_time` call on the days at line 292, which indexes an empty list |
| `CronNext.NotEarliestDay` | arritranco/scheduler/cron.py:288-301 | for `0 0,10 1,31 * *`, `__next_day(15)` in April 2024 skips the missing 31st and lands on May 1 reported as unchanged |
| `CronNext.NextRunNotEarliest` | arritranco/scheduler/cron.py:386-396 | for `0 0,10 1,31 * *` at 2024-04-15 10:00, `next_run` gives 2024-05-01 10:00 although 2024-05-01 00:00 is an earlier run |
| `CronNext.WeekdayMatchDay` | arritranco/scheduler/cron.py:288-374 | for `0 0 31 * 1`, `__next_day(1)` in April 2024 moves to May for the 31st and lands on Monday May 6 |
| `CronNext.WeekdayMatchSkipped` | arritranco/scheduler/cron.py:386-396 | for `0 0 31 * 1` at Monday 2024-04-01 00:00, itself a run, `next_run` gives 2024-05-06 00:00 |
| `CronNext.SundayZeroChoice` | arritranco/scheduler/cron.py:344-363 | for `0 0 1 * 0` from Sunday 2024-01-07 with the listed day carried, the choice of day takes the Sunday a week on |
| `CronNext.SundayZeroMatchSkipped` | arritranco/scheduler/cron.py:304-363 | for `0 0 1 * 0` at Sunday 2024-01-07 00:00, itself a run, `next_run` gives 2024-01-14 00:00 |
| `CronNext.WeekdayDiffNearest` | arritranco/scheduler/cron.py:304-316 | without a 0 in the weekday list, the distance is under a week, and no listed weekday is nearer |
| `CronNext.NearestPick` | arritranco/scheduler/cron.py:304-316 | the `__next_time` answer on the weekdays gives the nearest listed weekday when 0 is not listed |
| `CronNext.SundayZeroSkipsAWeek` | arritranco/scheduler/cron.py:304-316 | with only weekday 0 listed, a Sunday is 7 days from the next run and a Monday 13, not 0 and 6 |
| `CronPrev.SeekListedDay` | arritranco/scheduler/cron.py:418-428 | the day search keeps the time of day, never moves forward, stops on a listed day, and stays put on a listed day |
| `CronPrev.SeekListedDayFinds` | arritranco/scheduler/cron.py:419-428 | with a day `d` of month listed, the day search succeeds within its bound: `d` comes back within the current month or the two before |
| `CronPrev.SeekFromMonthEnd` | arritranco/scheduler/cron.py:419-428 | from the last day of a month, a listed day is found at most two months back |
| `CronPrev.SeekDownTo` | arritranco/scheduler/cron.py:427-428 | a search that reaches an earlier day of the same month succeeds if the search from there does |
| `CronPrev.SeekAcross` | arritranco/scheduler/cron.py:427-428 | a search that passes day 1 continues from the last day of the previous month |
| `CronPrev.ShortMonthFollowsLong` | arritranco/scheduler/cron.py:438-442 | a month of fewer than 31 days follows one of 31 days, so `monthrange` of the previous month is 31 |
| `CronPrev.DayBorrowLands` | arritranco/scheduler/cron.py:433-447 | the day count lands on the listed day in this month, or after a borrow on that day in the month before; in January the borrow is dropped (line 440) although the count still reaches December |
| `CronPrev.WeekdayPickListed` | arritranco/scheduler/cron.py:450 | `__prev_time` on the weekdays gives a listed weekday: the greatest one below without a borrow, the last one listed with a borrow |
| `CronPrev.WeekdayRuleCases` | arritranco/scheduler/cron.py:454-500 | with every weekday listed the day count and carry stand; with every day listed a weekday borrow steps back 1 to 13 days and carries exactly when it passes day 1, and otherwise the longer count is taken without carry; with both lists partial and only the day borrowing, the day count is kept and the carry dropped, because line 492 assigns the weekday distance to `prev_day` |
| `CronPrev.DayStage` | arritranco/scheduler/cron.py:420-500 | the day stage lands on a listed day; it fails when the base weekday is unlisted; otherwise it combines the day and weekday rules as the source does |
| `CronPrev.MonthStage` | arritranco/scheduler/cron.py:510-527 | the month stage moves to a listed month of this or the previous year, keeping day and time; an unlisted month raises for a retry |
| `CronPrev.DayMonthWalk` | arritranco/scheduler/cron.py:416-530 | the day and month loop yields a real timestamp that keeps the hour and minute |
| `CronPrev.AfterDayStage` | arritranco/scheduler/cron.py:502-530 | without carry the result is `base` less the day count; with carry, the month stage moves it, retries it from the previous month's last day, or falls back to the search day |
| `CronPrev.PrevRunFrom` | arritranco/scheduler/cron.py:402-530 | the walk back from `base` gives a real timestamp with a listed minute; the hour is listed when the base hour was; an unlisted base minute fails |
| `CronPrev.PrevRun` | arritranco/scheduler/cron.py:398-532 | `prev_run(time)` has a listed minute and hour, and passes on a `next_run` failure |
| `CronPrev.PrevRunEarlier` | arritranco/scheduler/cron.py:398-532 | with every weekday listed, `prev_run(time)` lies strictly before `next_run(time)` |
| `CronPrev.PrevRunFromEarlier` | arritranco/scheduler/cron.py:402-530 | with every weekday listed, the walk back from a run ends strictly before it |
| `CronPrev.DayOnlyStep` | arritranco/scheduler/cron.py:433-500 | with every weekday listed, the day stage takes the day-of-month borrow unchanged |
| `CronPrev.WalkEarlier` | arritranco/scheduler/cron.py:416-530 | with every weekday listed, the day and month loop from a listed day of a listed month ends on an earlier date |
| `CronPrev.FirstPassCarry` | arritranco/scheduler/cron.py:433-530 | after a first pass that borrowed into the previous month, the loop still ends on an earlier date |
| `CronPrev.ShortBorrowMoves` | arritranco/scheduler/cron.py:510-522 | when the borrow left `base` at day 1 to 3 of its month, the month stage moves it rather than raising |
| `CronPrev.MovedEarlier` | arritranco/scheduler/cron.py:510-522 | the month stage moves `base` to an earlier month |
| `CronPrev.RetryEarlier` | arritranco/scheduler/cron.py:525-530 | the retry from the last day of the previous month ends on a date before the first pass's `base` |
| `CronPrev.WalkSearchStops` | arritranco/scheduler/cron.py:416-530 | with a day of month listed, no pass of the day and month loop ends in `SearchLimit` |
| `CronPrev.StageSearchStops` | arritranco/scheduler/cron.py:502-530 | the rest of a pass ends in `SearchLimit` only through a later pass, which never does |
| `CronPrev.PrevRunSearchStops` | arritranco/scheduler/cron.py:398-532 | with no day of month listed, `prev_run` fails with `EmptyList` from `next_run`; otherwise, once `next_run` succeeds, `prev_run` never ends in `SearchLimit` |
| `CronPrev.PrevRunMinuteStep` | arritranco/scheduler/cron.py:402-407 | when an earlier minute is listed, the result is the latest such minute in the same hour, before `base` |
| `CronPrev.PrevRunHourStep` | arritranco/scheduler/cron.py:409-414 | when the minute wraps and an earlier hour is listed, the result is the latest such hour at the last listed minute, before `base` |
| `CronPrev.MinuteHourWrap` | arritranco/scheduler/cron.py:402-418 | when both minute and hour wrap, the walk continues from the last listed hour and minute of the same day |
| `CronPrev.MonthStageMoves` | arritranco/scheduler/cron.py:516-522 | the month stage moves to the previous listed month, a year back when it wrapped, keeping the day |
| `CronPrev.PrevRunDayStep` | arritranco/scheduler/cron.py:420-508 | with every weekday listed and an earlier day listed, the result is the latest listed day before `base`, at the last listed hour and minute |
| `CronPrev.DayOnlyStage` | arritranco/scheduler/cron.py:433-447 | with every weekday listed, the day count back is the distance to the latest listed earlier day, without carry |
| `CronPrev.PrevRunAtRun` | arritranco/scheduler/cron.py:398-400 | when `time` is its own next run, `prev_run` walks back from `time` itself |
| `CronPrev.DailyPrevRunSkipsMonth` | arritranco/scheduler/cron.py:433-447 | for `0 0 * * *` at 2024-05-01 00:00, `prev_run` gives 2024-04-01 although 2024-04-30 00:00 is a run |
| `CronPrev.DailyFixpoint` | arritranco/scheduler/cron.py:386-396 | for `0 0 * * *`, 2024-05-01 00:00 is its own next run |
| `CronPrev.DailyPrevRunFrom` | arritranco/scheduler/cron.py:402-530 | for `0 0 * * *`, the walk back from 2024-05-01 00:00 ends at 2024-04-01 00:00 |
| `CronPrev.MidnightListed` | arritranco/scheduler/cron.py:59 | under `0 0 * * *` every real date at midnight is a run |
| `CronPrev.DailyWalk` | arritranco/scheduler/cron.py:416-530 | for `0 0 * * *`, the day and month loop from 2024-05-01 ends at 2024-04-01 |
| `CronPrev.WeekdayPrevRunGoesForward` | arritranco/scheduler/cron.py:456-471 | for `0 0 * * 0,5` at Friday 2024-03-01 00:00, `prev_run` gives 2024-03-02, a later time |
| `CronPrev.ForwardPrevRunFrom` | arritranco/scheduler/cron.py:456-508 | for `0 0 * * 0,5`, the walk back from 2024-03-01 ends at 2024-03-02 |
| `CronPrev.ForwardFixpoint` | arritranco/scheduler/cron.py:386-396 | for `0 0 * * 0,5`, Friday 2024-03-01 00:00 is its own next run |
| `CronPrev.ForwardWalk` | arritranco/scheduler/cron.py:456-508 | for `0 0 * * 0,5`, the day and month loop from 2024-03-01 ends at 2024-03-02 |
| `CronPrev.SundayPrevRunFails` | arritranco/scheduler/cron.py:450 | for `0 0 * * 0`, the walk back from Sunday 2024-01-07 fails with `NotInList`, because weekday 7 is looked up and only 0 is listed |
| `Crontab.InWindowMinutes` | arritranco/scheduler/cron.py:542-547 | `begin <= time <= begin + e minutes` holds exactly when the minute counts lie in that window |
| `Crontab.Expired` | arritranco/scheduler/cron.py:536-549 | `is_expired` fails exactly when `prev_run` fails, which includes every `next_run` failure |
| `Crontab.ExpiredMeaning` | arritranco/scheduler/cron.py:536-549 | `is_expired` passes on a `next_run` or `prev_run` failure; otherwise it is true exactly when `time` lies in neither window `[run, run + e]` |
| `Crontab.ExpiredBetweenRuns` | arritranco/scheduler/cron.py:536-549 | when `time` is not itself a run, only the window after the previous run counts |
| `Crontab.ExpiredAtRun` | arritranco/scheduler/cron.py:536-549 | at a scheduled minute with a non-negative expiration, the entry is not expired |
| `Crontab.ExpiredMonotone` | arritranco/scheduler/cron.py:536-549 | a longer expiration never turns a live entry into an expired one |
| `Crontab.SimpleCrontabEntry.constructor` | arritranco/scheduler/cron.py:31-34 | keeps the text and the expiration, and holds the parsed fields when the entry is accepted |
| `Crontab.SimpleCrontabEntry.SetExpiration` | arritranco/scheduler/cron.py:36-37 | sets the expiration and leaves the text and fields unchanged |
| `Crontab.SimpleCrontabEntry.SetValue` | arritranco/scheduler/cron.py:39-52 | the outcome is the parse of the entry, and the text is always stored; on success the fields are replaced, a wrong field count keeps the old fields, and a bad field leaves none |
| `Crontab.SimpleCrontabEntry.NextRun` | arritranco/scheduler/cron.py:386-396 | the object's next run is `next_run` on its fields |
| `Crontab.SimpleCrontabEntry.PrevRun` | arritranco/scheduler/cron.py:398-532 | the object's previous run is `prev_run` on its fields |
| `Crontab.SimpleCrontabEntry.IsExpired` | arritranco/scheduler/cron.py:536-549 | the object's expiry is `is_expired` on its fields and its expiration |
| `Crontab.Create` | arritranco/scheduler/cron.py:31-34 | the constructor fails exactly when the entry is rejected, with the same error; otherwise the new object holds the entry, its fields and the expiration |
| `Crontab.IsValid` | arritranco/scheduler/cron.py:200-211 | the loop over the fields gives the five expansions, or the first bad field's error |
| `Crontab.PrevFrom` | arritranco/scheduler/cron.py:402-530 | the minute, hour, day and month stages as written compute `PrevRunFrom` |
| `Crontab.SeekDay` | arritranco/scheduler/cron.py:420-428 | the day search loop computes `SeekListedDay` |
| `Crontab.DayMonthLoop` | arritranco/scheduler/cron.py:416-530 | the outer loop of `prev_run` computes `DayMonthWalk` |
| `Crontab.DayPass` | arritranco/scheduler/cron.py:420-504 | one pass of the day stage fails as the walk fails, or gives the stage the walk continues from |
| `Crontab.WalkSearchFails` | arritranco/scheduler/cron.py:420-428 | a pass whose day search gives up fails with the search's error |
| `Crontab.WalkWeekdayFails` | arritranco/scheduler/cron.py:450 | a pass whose weekday lookup raises fails with that error |
| `Crontab.WalkSeekFound` | arritranco/scheduler/cron.py:420-426 | the searched day keeps the time of day and is listed, so `__prev_time` on the days succeeds |
| `Crontab.WalkPass` | arritranco/scheduler/cron.py:420-530 | a pass whose lookups succeed continues exactly as the day stage's combination of day and weekday rules says |

## Behaviour of the source that the model keeps

The model does what the code does, including results that a crontab reader
would not expect. The lemmas named here pin each case down:

- `CronNext.SundayZeroSkipsAWeek`: with weekday `0` (or `Sun`, which becomes 0) in the list, `__next_day` searches for 7 on a Sunday. The search wraps around and adds a week.
- `CronPrev.DailyPrevRunSkipsMonth`: `prev_run` for `0 0 * * *` at the first of a month borrows a whole month instead of one day.
- `CronPrev.WeekdayPrevRunGoesForward`: with weekdays listed, `prev_run` can return a time after `time`.
- `CronPrev.SundayPrevRunFails`: the weekday lookup of `prev_run` (cron.py:450) is outside any `try`. It raises when the base's weekday number is not listed.
- `CronParse.RangeField`: a reversed range such as `5-3` is accepted as an empty list.
  - `next_run` then fails with `EmptyList`, which models the source's `IndexError`.
- `CronParse.WeekdayNameField`: `Sun` is replaced by 0, not 7.
  - This is the order in which Python 2 pops the keys of the copied name dictionary.
- `Crontab.SimpleCrontabEntry.IsExpired`: the guard `self.expiration == 0` compares a `timedelta` with an integer. That comparison is always false in Python 2, so the "expiration not set" error is never raised and the model has no such error.
- `CronNext.NextRunNotEarliest`: when the day of `time` does not exist in its month for the listed day offered, `__next_day` moves to the next month, restarts at day 1 and reports the day as unchanged. The hour of `time` is then kept, so `0 0,10 1,31 * *` at 2024-04-15 10:00 runs next at 2024-05-01 10:00, not at 00:00.
- `CronNext.WeekdayMatchSkipped`: a run is not always its own next run. For `0 0 31 * 1`, Monday 2024-04-01 00:00 is a run by its weekday, but `__next_day` first looks for the listed 31st, which April lacks, and so lands on Monday 2024-05-06.
- `CronNext.SundayZeroMatchSkipped`: for `0 0 1 * 0`, Sunday 2024-01-07 00:00 is a run, but the weekday search for 7 wraps to 0 a week on and gives 2024-01-14. `CronNext.NextRunFixpoint` states when a run is its own next run.
- `CronParse.StarStepField`: `*/0` in a field whose range holds 0 (minute, hour, weekday) is `BadField(kind, ZeroStep)`. In the source, `range()` raises a `ValueError` with a single argument; the three-name unpacking of the `except` clause at cron.py:208 cannot take it, so a different exception escapes `_is_valid` and `set_value` never reaches its "Bad Entry" error or the print. Both reject the entry; the model does not tell the two exceptions apart.
- At cron.py:492, the weekday distance is assigned to `prev_day`, which is never read again. The model keeps the distance that was computed for the day.

## Left out

- Input and output: the `print` statements, and the `__main__` block at the end of cron.py.
- The clock: the default argument `time=datetime.datetime.now()` is not modelled. `time` is always a parameter.
- The `@`-macros of `__setup_timespec`. `set_value` never expands them, so they are rejected as one-field entries (`CronParse.SingleWordEntry`).
- Regular expressions are not a general engine. The model has one function per pattern used: `\S+`, the name substitution with its look-around, `^(\d+)-(\d+)$` and `^(\d+-\d+)/(\d+)$`.
- `\d` and `\s` cover ASCII only.
- Times have minute resolution:
  - seconds and microseconds are not modelled;
  - the expiration is a whole number of minutes;
  - `datetime`'s year range 1..9999 is not enforced.
- Recursion and search bounds:
  - `CronNext.NextRun` models the interpreter's recursion limit as 1000 nested resolver calls (`Budget`). Beyond that the model answers `RecursionLimit`, where the source raises `RuntimeError`.
  - `CronPrev.SeekListedDay` stops after 400 single-day steps with `SearchLimit`, where the source's loop has no bound. The bound is never what ends a `prev_run`: with no day of month listed, `next_run` raises first (`CronNext.NextRunNoDays`), and otherwise a listed day comes back within 93 steps (`CronPrev.SeekListedDayFinds`, `CronPrev.PrevRunSearchStops`).
- CronNext.NextRun: the contract says the result is a run no earlier than `time`, not that it is the first such run, because the source does not always find the first one (`CronNext.NextRunNotEarliest`, `CronNext.WeekdayMatchSkipped`, `CronNext.SundayZeroMatchSkipped`). The first-run property is proved where it holds: within the month of `time`, when the day of `time` is not a run day and no 0 is among the listed weekdays (`CronNext.NextRunEarliest`).
- CronPrev.PrevRun: the result is proved earlier than `next_run(time)` only when every weekday is listed (`CronPrev.PrevRunEarlier`). With weekdays listed the source can move forward (`CronPrev.WeekdayPrevRunGoesForward`), and even with all of them listed it does not always give the latest earlier run (`CronPrev.DailyPrevRunSkipsMonth`).
- Crontab.IsValid: checks the fields in entry order (minute to weekday) and reports the first bad one. The source walks a dictionary in an order that depends on hashing, and only reports that the entry is bad.
- Crontab.SimpleCrontabEntry.SetValue: after a bad field, the model leaves no fields (`None`). The source leaves a dictionary in which the fields checked before the bad one are already converted and the rest are still text.
- The `sol` dictionary that the `__next_*` methods mutate is modelled as a `DateTime` value passed in and returned. No other code shares it, so nothing observable is lost.
- The constructor raising on a bad entry is modelled by `Crontab.Create`, which returns an error instead of an object.
