# Cake days

A verified model of the cake-day rule engine of the `cakedays` PHP
program. The engine is the `CakeDays` class. It takes a map from birth dates
(`"YYYY-MM-DD"`) to lists of names and turns it into the year's cake days. The
model also covers the command-line loop that reads, checks and groups the CSV
rows that the engine is built from.

The engine runs a fixed pipeline over PHP ordered arrays. Each step rewrites
a field of the object in place:

1. `removeBirthdayYears` re-keys the birthdays array by `"MM-DD"`.
2. `leapYearFix` folds 29 February into 1 March outside leap years.
3. `ksort` sorts the birthdays by key.
4. `populateCakeDaysStack` puts each birthday's names on its cake day. That
   is the next working day, or the one after it when the office is closed on
   the birthday.
5. `tomorrowCakeTooCheckModiy` runs a forward pass with a skip flag. It merges
   a cake day into the next calendar day when both have cake.
6. `healthCheckModify` runs a second forward pass with a skip flag. It moves a
   cake day that follows another to the next working day.
7. `ksort` sorts the cake days, and `prepareExport` emits one
   small-or-large entry per cake day.

## Layout

- `Calendar.dfy`: proleptic Gregorian dates. Covers the leap rule, days in a
  month, the next and the previous day, and the day of the week from a day
  number. `Ord` is the integer behind the zero-padded key. For years 0 to
  9999, whose keys have exactly four year digits, comparing `Ord` values is
  comparing the keys as strings.
- `WorkingDays.dfy`: the holiday list, `isWorkingDay`, `getNextWorkingDay`
  and `getNextNextWorkingDay`, and the raw cake day of a birthday.
- `Sequences.dfy`, `PhpArray.dfy`: PHP ordered arrays. They model
  assignment, `unset` and `ksort`.
- `Names.dfy`: `sort()` and `array_unique()` on lists of names, and the set of
  names a map holds.
- `Birthdays.dfy`: `removeBirthdayYears`, `leapYearFix`, and the `ksort` of
  the birthdays array.
- `CakeStack.dfy`: `populateCakeDaysStack`.
- `Merge.dfy`: `tomorrowCakeTooCheckModiy`.
- `Health.dfy`: `healthCheckModify`, in two versions. One is as written, with
  the skip flag. The other is corrected (see Findings).
- `Export.dfy`: `prepareExport`.
- `Schedule.dfy`: `processCakeDays` as a composition of functions, with the
  health pass as written, plus the theorems about the final schedule. A
  second composition uses the corrected health pass (see Findings).
- `Engine.dfy`: the `CakeDays` class. Its fields are updated in place, one
  method per private PHP method. Each method is proved to leave its field as
  the function that models it in the modules above says:
  `RemoveBirthdayYears` as `StripYears`, `LeapYearFix` as `LeapFix`,
  `PopulateCakeDaysStack` as `PopulateFrom` and `Populate`,
  `TomorrowCakeTooCheckModify` as `Merge.Merge`, the two health methods as
  `HealthAsWritten` and `Health`, and `PrepareExport` as `ExportRows`.
- `Text.dfy`: `trim`, the strict `Y-m-d` date reader and writer, and
  `implode(" ", …)`.
- `App.dfy`: the CSV row loop, the output rows, and the whole program.
- `Scenarios.dfy`: concrete 2020 results taken from the test suite.
- `Golden.dfy`: the October-week test case carried through the whole
  pipeline, down to the exported rows, and four birthdays early in October
  on which the pass as written leaves two cake days in a row.

Each PHP `foreach` over a field is modelled the same way. The loop walks a
snapshot of the array's key sequence. Every lookup, merge and `unset` acts on
the live array. The two merge passes also carry the skip flag in a `Walk`
value.

The target year is a parameter. It replaces `date('Y')`. The holidays are
1 January, 25 and 26 December of the target year, plus 1 January of the
next year.

Some behaviour of the program that the model keeps as it is:

- Each birthday is placed in the target year only. No copies are made for
  the years before and after.
- A holiday that falls on a weekend is not moved to a working day.
- The export array holds every cake day of the stack. It is not filtered to
  the target year, so a late-December birthday can give a cake day in
  January of the next year.
- The application checks each row in this order: the date, then an empty
  name, then a repeated name. A row with fewer than two fields raises the
  error flag, and reading goes on.

## Model

| member | source | states |
|---|---|---|
| Calendar.Next | classes/CakeDays.php:223-225 | the day after a valid date is a valid, later date |
| Calendar.Prev | classes/CakeDays.php:256-258 | the day before a valid date is a valid, earlier date |
| Calendar.NextIsImmediate | classes/CakeDays.php:223-225 | no valid date lies strictly between a date and its successor |
| Calendar.PrevIsImmediate | classes/CakeDays.php:256-258 | no valid date lies strictly between a date's predecessor and the date |
| Calendar.PrevNext | classes/CakeDays.php:256-258 | "+1 day" and "-1 day" undo each other on valid dates |
| Calendar.OrdInjective | classes/CakeDays.php:142 | two valid dates with the same zero-padded key are the same date, so ksort order is a strict calendar order |
| Calendar.DaysInMonth | classes/CakeDays.php:308 | February has 29 days exactly in leap years (divisible by 4, not by 100 unless by 400) |
| Calendar.NextDayNumber | classes/CakeDays.php:180-182 | the next day's number is one more, so its weekday is the next weekday |
| WorkingDays.Holidays | classes/CakeDays.php:94-98 | exactly four closures, all valid dates |
| WorkingDays.HolidayClosures | classes/CakeDays.php:179-188 | a day is not a working day iff it is a Saturday or Sunday or 1 Jan, 25 Dec, 26 Dec of the year or 1 Jan of the next |
| WorkingDays.NextWorkingDay | classes/CakeDays.php:195-202 | the result is a valid working day strictly after the date |
| WorkingDays.NextWorkingDaySkipsOnlyClosures | classes/CakeDays.php:195-202 | every date strictly between a date and its next working day is a closure |
| WorkingDays.NextWorkingDayUnique | classes/CakeDays.php:195-202 | the three properties above determine the next working day uniquely |
| WorkingDays.NextWorkingDayIsLeast | classes/CakeDays.php:195-202 | every working day after a date is on or after its next working day |
| WorkingDays.NextWorkingDayMonotonic | classes/CakeDays.php:195-202 | a later date never has an earlier next working day |
| WorkingDays.NextNextWorkingDay | classes/CakeDays.php:209-211 | a working day strictly after the next working day |
| WorkingDays.CakeDayProperties | classes/CakeDays.php:155-162 | a birthday's cake day is a working day after it; for a working birthday no working day lies in between, for a closed one the next working day is skipped |
| WorkingDays.CakeDayMonotonic | classes/CakeDays.php:155-162 | later birthdays never get earlier cake days |
| PhpArray.Assign | classes/CakeDays.php:169 | `$a[$k] = $v` sets the value; an existing key keeps its place, a new one goes last |
| PhpArray.Unset | classes/CakeDays.php:236 | `unset` drops the key from the map and from the order, keeping the rest in order |
| PhpArray.KSort | classes/CakeDays.php:142 | ksort keeps the map and rearranges the keys into ascending order |
| PhpArray.AssignTwice | classes/CakeDays.php:232-234 | assigning a key and then re-assigning its sorted value is one assignment |
| PhpArray.WithoutOnce | classes/CakeDays.php:236 | unset of a key that occurs once leaves the keys before it and after it, in order |
| Names.SortNames | classes/CakeDays.php:167 | sort() returns a sorted permutation of the list |
| Names.SortedUnique | classes/CakeDays.php:345 | two sorted lists with the same names are equal, so sort's result is determined by the multiset |
| Names.SortNamesPermutation | classes/CakeDays.php:345 | sorting depends only on which names there are, not on their order |
| Names.Dedup | classes/CakeDays.php:232-233 | array_unique keeps every name once and no other |
| Names.SortedSet | classes/CakeDays.php:232-234 | sort(array_unique(...)) is sorted, has no repeats, and holds exactly the input's names |
| Names.AllNamesMove | classes/CakeDays.php:263-273 | moving one key's names onto another key keeps the set of names in the map |
| Names.MoveDisjoint | classes/CakeDays.php:263-273 | moving one key's names onto another key, which keeps at most its own names and the moved ones, leaves no name under two keys when there was none before |
| Names.SortedSetUnique | classes/CakeDays.php:232-234 | two sorted lists without repeats holding the same names are equal, so sort(array_unique(...)) is fixed by the set of names |
| Birthdays.PushNamesEffect | classes/CakeDays.php:334-342 | the inner foreach appends the names, in order, after those already under the month-day |
| Birthdays.StripYearsSpec | classes/CakeDays.php:331-350 | one key per month-day on which somebody was born and no full-date key is left; each holds the sorted names of everybody born on it; no name is lost |
| Birthdays.StripYearsKeepsName | classes/CakeDays.php:331-350 | every input name is found under the month-day of its birth date |
| Birthdays.StripYearsHas | classes/CakeDays.php:331-350 | a name is under month-day md afterwards iff some birth date with that month and day held it |
| Birthdays.MonthDayInYear | classes/CakeDays.php:157 | a month-day other than 29 Feb is a date of every year, and 29 Feb is a date of every leap year |
| Birthdays.LeapFixSpec | classes/CakeDays.php:306-322 | in a leap year or without 02-29 nothing changes; otherwise 02-29 is gone and its names join 03-01, deduplicated and sorted, and every other key is untouched |
| Birthdays.LeapFixKeepsName | classes/CakeDays.php:306-322 | every name is afterwards under its month-day, or under 03-01 if it was under 02-29 in a non-leap year |
| Birthdays.LeapFixHas | classes/CakeDays.php:306-322 | a name is under month-day md after the fix iff it was under a month-day whose target is md (03-01 for 02-29 outside leap years, otherwise the month-day itself) |
| Birthdays.SortBirthdaysSpec | classes/CakeDays.php:130 | ksort of the birthdays puts the month-day keys in strictly ascending calendar order and keeps every key's names |
| CakeStack.PopulateSpec | classes/CakeDays.php:155-172 | every key is a working day holding, sorted, exactly the names of the birthdays whose cake day it is; keys are in calendar order; no name is lost |
| CakeStack.PopulateKeepsName | classes/CakeDays.php:155-172 | every name of a birthday is on that birthday's cake day |
| CakeStack.CakeNamesElems | classes/CakeDays.php:155-172 | the names gathered for day d are exactly those under the month-days whose date in the target year has cake day d |
| CakeStack.ChronologicalUnique | classes/CakeDays.php:142 | two key orders in strictly ascending date order holding the same dates are the same order |
| CakeStack.KSortStack | classes/CakeDays.php:142 | ksort of a stack of valid dates puts the keys in calendar order and leaves a stack already in calendar order unchanged |
| CakeStack.NextKeyFollows | classes/CakeDays.php:221-231 | in a calendar-ordered stack, a key whose next day is also a key is immediately followed by it |
| Merge.MergeSpec | classes/CakeDays.php:219-243 | the merge pass keeps every key a working day with sorted names, adds no key, keeps the name set, and leaves each day's names on it or, if it was dropped, on the next calendar day |
| Merge.MergeKeepsName | classes/CakeDays.php:219-243 | a name on day c is afterwards on c or on c + 1 |
| Merge.MergeOneDisjoint | classes/CakeDays.php:231-236 | one merging turn leaves no name on two days when there was none before |
| Merge.MergeDisjoint | classes/CakeDays.php:219-243 | when no name is on two days of the stack, none is on two days after the merge pass |
| Merge.MergePaired | classes/CakeDays.php:219-243 | on a stack whose keys come in pairs of consecutive days, the pass keeps the later day of each pair, holding the sorted names of both days, and drops the earlier |
| Health.MovedNames | classes/CakeDays.php:264-271 | the moved list is sorted and holds the target's names and the moved ones |
| Health.HealthAsWrittenSpec | classes/CakeDays.php:252-280 | the pass as written keeps every key a working day with sorted names, keeps the name set, and leaves each day's names on it or, if it was moved, on its next working day |
| Health.HealthAsWrittenKeepsName | classes/CakeDays.php:252-280 | as written, a name on day d is afterwards on d or on d's next working day |
| Health.HealthAsWrittenIdle | classes/CakeDays.php:252-280 | as written, a calendar-ordered stack on which no cake day is the day after another passes unchanged |
| Health.HealthOneDisjoint | classes/CakeDays.php:263-273 | one move of the health pass leaves no name on two days when there was none before |
| Health.HealthAsWrittenDisjoint | classes/CakeDays.php:252-280 | when no name is on two days of the stack, none is on two days after the health pass as written |
| Health.HealthSkipKeepsNeighbours | classes/CakeDays.php:272-278 | as written, cake days on 6, 7 and 9 October 2020 become 6, 8 and 9 October: two cake days in a row |
| Health.HealthSpec | classes/CakeDays.php:252-280 | the corrected pass keeps the stack shaped, keeps the name set, leaves every name on its day or on its next working day, and leaves no cake day on the day after another |
| Health.HealthKeepsName | classes/CakeDays.php:252-280 | corrected pass (see Findings): a name on day d is afterwards on d or on d's next working day |
| Health.HealthIdle | classes/CakeDays.php:252-280 | corrected pass (see Findings): a calendar-ordered stack on which no cake day is the day after another passes unchanged |
| Export.Entry | classes/CakeDays.php:292-295 | small is 1 iff exactly one name, large is 1 iff more than one, both 0 or 1 |
| Export.EntryHasOneCake | classes/CakeDays.php:293-294 | small + large == 1 iff the list is non-empty |
| Export.ExportRows | classes/CakeDays.php:288-298 | one entry per key, in key order, each the entry of that key's names |
| Export.ExportRowsHas | classes/CakeDays.php:288-298 | a name on a listed cake day is in that day's entry |
| Schedule.Prepared | classes/CakeDays.php:121-130 | after stripping, the leap fix and ksort, keys are target-year dates in ascending order and the name set is the input's |
| Schedule.PreparedHas | classes/CakeDays.php:121-130 | after stripping, the leap fix and ksort, a name is under month-day md iff some birth date whose target month-day is md held it |
| Schedule.BuiltHas | classes/CakeDays.php:155-172 | a name is on day d of the built stack iff some birthday holding it is owed cake on d |
| Schedule.BuiltDays | classes/CakeDays.php:155-172 | d is a key of the built stack iff some birthday is owed cake on d |
| Schedule.Built | classes/CakeDays.php:133 | the built stack holds working days in calendar order |
| Schedule.Merged | classes/CakeDays.php:136 | the merged stack holds working days in calendar order |
| Schedule.Checked | classes/CakeDays.php:139 | after healthCheckModify as written, the stack holds working days with sorted, non-empty names |
| Schedule.Final | classes/CakeDays.php:142 | the final ksort keeps the map of the checked stack |
| Schedule.CheckedCorrected | classes/CakeDays.php:139 | corrected pass (see Findings): the checked stack holds working days with sorted, non-empty names |
| Schedule.FinalCorrected | classes/CakeDays.php:142 | corrected pass (see Findings): the final ksort keeps the map of the corrected checked stack |
| Schedule.FinalInOrder | classes/CakeDays.php:142 | after ksort the keys are in strictly ascending date order |
| Schedule.CakeDaysShape | classes/CakeDays.php:119-146 | the schedule is in strictly ascending date order; every entry is a working day with a sorted, non-empty name list and exactly one cake, large iff more than one name |
| Schedule.RowsShape | classes/CakeDays.php:288-298 | the entries of a shaped, ordered stack are ordered working days with one cake each |
| Schedule.CakeDaysApart | classes/CakeDays.php:66-69 | corrected pipeline (see Findings), not the program as written: no cake day of the corrected schedule is the calendar day after another |
| Schedule.CakeDaysNames | classes/CakeDays.php:119-146 | a name appears in the schedule iff it is in the input |
| Schedule.BuiltDisjoint | classes/CakeDays.php:155-172 | when no name is under two birth dates, none is on two days of the built stack |
| Schedule.CakeDaysOnce | classes/CakeDays.php:119-146 | when no name is under two birth dates, every name is in at most one entry of the schedule |
| Schedule.RowsOnce | classes/CakeDays.php:288-298 | the entries of a stack whose days share no name share no name |
| Schedule.BuiltAfterBirthday | classes/CakeDays.php:155-172 | every name is on the stack on a day after its birthday in the target year (02-29 read as 03-01 outside leap years) |
| Schedule.CheckedAfterBirthday | classes/CakeDays.php:219-280 | both passes only move names to later days |
| Schedule.CakeAfterBirthday | classes/CakeDays.php:55-57 | everybody gets cake on a working day after their birthday in the target year |
| Engine.CakeDays.constructor | classes/CakeDays.php:84-99 | stores the birthdays, clears the flag and the stack, and sets the four holidays of the target year; any full-date key whose month and day occur in some year is taken, "1979-02-29" included |
| Engine.CakeDays.GetCakeDays | classes/CakeDays.php:105-111 | the first call runs the pipeline, leaves the birthdays array prepared and the stack as the final sorted stack, and sets the flag; later calls change nothing and return the stored export array, which is the schedule |
| Engine.CakeDays.ProcessCakeDays | classes/CakeDays.php:119-146 | the birthdays array ends stripped, leap-fixed and sorted; the stack ends as the sorted result of the two passes as written; the export array is the schedule of the birthdays given |
| Engine.CakeDays.RemoveBirthdayYears | classes/CakeDays.php:331-350 | the nested foreach leaves the birthdays array as StripYears says |
| Engine.CakeDays.LeapYearFix | classes/CakeDays.php:306-322 | the birthdays array becomes LeapFix of the old one |
| Engine.CakeDays.PopulateCakeDaysStack | classes/CakeDays.php:155-172 | the stack becomes the foreach of PopulateOne over the birthdays |
| Engine.CakeDays.IsWorkingDay | classes/CakeDays.php:179-188 | true iff not Saturday, not Sunday and not a holiday |
| Engine.CakeDays.GetNextWorkingDay | classes/CakeDays.php:195-202 | the loop returns a working day after the date with only closures in between |
| Engine.CakeDays.GetNextNextWorkingDay | classes/CakeDays.php:209-211 | a working day after the next working day, namely the next working day of it |
| Engine.CakeDays.TomorrowCakeTooCheckModify | classes/CakeDays.php:219-243 | the snapshot foreach with the skip flag leaves the stack as Merge says |
| Engine.CakeDays.MergeIntoNextDay | classes/CakeDays.php:231-236 | tomorrow's list becomes sort(array_unique(tomorrow + today)) and today is unset |
| Engine.CakeDays.HealthCheckModifyAsWritten | classes/CakeDays.php:252-280 | the snapshot foreach with the skip flag leaves the stack as HealthAsWritten says |
| Engine.CakeDays.HealthCheckModify | classes/CakeDays.php:252-280 | corrected pass (see Findings): the same foreach without the skip flag leaves the stack as Health says |
| Engine.CakeDays.MoveToNextWorkingDay | classes/CakeDays.php:263-273 | the names join the next working day's list and the day is unset |
| Engine.CakeDays.PrepareExport | classes/CakeDays.php:288-298 | the export array is one entry per stack key, in key order |
| Text.Trim | cakedays-app.php:17-18 | the trimmed field neither starts nor ends with white space |
| Text.TrimIsInfix | cakedays-app.php:17-18 | trim only removes white space from both ends |
| Text.TrimIdempotent | cakedays-app.php:17-18 | trimming twice is trimming once |
| Text.ParseDate | cakedays-app.php:28-29 | an accepted birthday is a real calendar date in strict YYYY-MM-DD form |
| Text.ParseFormat | cakedays-app.php:28-29 | every date of a four-digit year reads back from its Y-m-d text |
| Text.FormatParse | cakedays-app.php:28-29 | an accepted birthday text is exactly the Y-m-d text of its date |
| Text.FormatDateInjective | cakedays-app.php:87 | two valid dates with the same Y-m-d text are equal |
| Text.SplitJoin | cakedays-app.php:90 | names without spaces read back from their space-joined text |
| App.Check | cakedays-app.php:16-40 | a row is short iff it has at most one field, else rejected for its date, then for an empty name, then for a repeated name, else accepted with its trimmed name and date |
| App.Group | cakedays-app.php:57-61 | the name is appended under its exact birth date and every other key is untouched |
| App.Read | cakedays-app.php:14-65 | the grouped array is a valid engine input holding exactly the accepted names, with none repeated and none under two birth dates |
| App.GroupDisjoint | cakedays-app.php:57-61 | filing a name that is not yet in the array under its birth date keeps every name under one birth date only |
| App.ReadBirthdays | cakedays-app.php:14-65 | the while loop with its breaks leaves the flag, names and array as Read says |
| App.ErrorSticks | cakedays-app.php:62-64 | once the error flag is raised it stays raised |
| App.Accepts | cakedays-app.php:14-65 | the input is accepted iff every row has two fields, a real date and a non-empty name and no name repeats; then the names are kept in file order |
| App.Files | cakedays-app.php:57-61 | every name of an accepted file is under the birth date of its own row |
| App.Fields | cakedays-app.php:87-90 | an output row is date, small, large and the names joined by single spaces |
| App.DateReadsBack | cakedays-app.php:87 | the date field reads back as the cake day |
| App.NamesReadBack | cakedays-app.php:90 | the names field splits back into the cake day's names |
| App.OutputRows | cakedays-app.php:86-91 | one output row per schedule entry, in schedule order |
| App.WriteRows | cakedays-app.php:86-91 | the output loop produces OutputRows |
| App.Run | cakedays-app.php:74-91 | nothing is written when the input is refused, otherwise one row per cake day of the engine's schedule |
| App.OutputNames | cakedays-app.php:74-91 | on an accepted file, a name is in the schedule iff some row carries it, and it is in one entry only |
| Scenarios.ChristmasCakeDay | tests/CakeDaysTest.php:293-309 | a birthday on Friday 25 December 2020 gets cake on Tuesday 29 December |
| Scenarios.ChristmasSchedule | tests/CakeDaysTest.php:293-309 | the 2020 schedule of a single 1979-12-25 birthday is one small cake on 2020-12-29 |
| Scenarios.LeapDayCakeDays | tests/CakeDaysTest.php:271-291 | in 2020, 29 February and 1 March both have their cake day on 3 March |
| Scenarios.LeapYearSchedule | tests/CakeDaysTest.php:271-291 | the 2020 schedule of Andrew (1979-02-29), Elizabeth (1988-02-29) and Dave (1980-03-01) is one large cake on 2020-03-03 for Andrew, Dave and Elizabeth; the key 1979-02-29 is taken although 1979 has no 29 February |
| Scenarios.ThreeOnOneDay | classes/CakeDays.php:119-146 | two birth dates on one month-day and one on another, in a leap year where both month-days share a cake day, give one entry holding all the names, sorted |
| Scenarios.StripThree | classes/CakeDays.php:331-350 | stripping the years of those three birth dates leaves two month-day keys, the first holding the first two lists sorted together |
| Scenarios.PreparedTwo | classes/CakeDays.php:121-130 | in a leap year a stripped array with two month-days is prepared as those keys in day order, names unchanged |
| Scenarios.BuiltOne | classes/CakeDays.php:155-172 | two month-days sharing their cake day give a stack with that one day, holding both lists sorted together |
| Scenarios.OctoberCakeDays | tests/CakeDaysTest.php:118-158 | the raw cake days of the birthdays of the week of 12 October 2020 |
| Scenarios.OneCakeDay | classes/CakeDays.php:219-298 | a stack with a single cake day passes both passes unchanged and exports as that day's entry |
| Golden.OneKeyEachBuilt | classes/CakeDays.php:155-172 | on an input with one birthday per person, a person is on day d of the built stack iff d is the cake day owed for their birthday |
| Golden.OctoberBuiltKeys | tests/CakeDaysTest.php:118-158 | for the birthdays of the week of 12 October 2020 the built stack's keys are 13, 14, 15, 16, 19 and 20 October, in that order |
| Golden.OctoberMerged | tests/CakeDaysTest.php:118-158 | the merge pass leaves 14, 16 and 20 October, each with the sorted names of its own day and of the day before |
| Golden.OctoberChecked | tests/CakeDaysTest.php:118-158 | the health pass changes nothing on that stack |
| Golden.OctoberWeekRows | tests/CakeDaysTest.php:118-158 | every input with one key per person born as in the test gives the three rows the test expects |
| Golden.OctoberWeek | tests/CakeDaysTest.php:118-158 | getCakeDays on the ten birthdays of the test returns exactly: 2020-10-14 large [Harry, William, Xavier]; 2020-10-16 large [Bob, Elizabeth, Jeff]; 2020-10-20 large [Ellie, Fiona, Luka, Norman] |
| Golden.EarlyBuiltKeys | classes/CakeDays.php:155-172 | for birthdays on 2, 5, 6 and 8 October the built stack's keys are 5, 6, 7 and 9 October 2020, in that order |
| Golden.EarlyMerged | classes/CakeDays.php:219-243 | the merge pass folds 5 October into 6, which holds [Ann, Ben], and leaves Cat alone on 7 and Dan alone on 9 |
| Golden.EarlyChecked | classes/CakeDays.php:252-280 | the health pass as written moves Cat to Thursday 8 and then skips Dan's 9, leaving keys 6, 8 and 9 October |
| Golden.EarlyCheckedCorrected | classes/CakeDays.php:252-280 | corrected pass (see Findings): Cat moves to 8 and Dan on to Monday 12 October |
| Golden.EarlyRows | classes/CakeDays.php:119-146 | getCakeDays as written gives a large cake on 6 October and small ones on 8 and 9 October, two cake days in a row |
| Golden.EarlyRowsCorrected | classes/CakeDays.php:119-146 | corrected pipeline (see Findings): the rows are 6, 8 and 12 October |
| Golden.EarlyOctober | classes/CakeDays.php:119-146 | the four-birthday input is a valid engine input; as written its cake days are 6, 8 and 9 October, corrected they are 6, 8 and 12 |

## Left out

- File handling in the application is not modelled: opening, reading and writing the CSV files, the try/catch and the `die` messages. The rows arrive as lists of fields, and the program's result is the list of output rows or nothing.
- The wall clock is a parameter: the target year replaces `date('Y')` and `strtotime`.
- PHP's `DateTime` is replaced by the calendar in `Calendar.dfy`.
- The cache is modelled by the `processed` field, but not the sharing of one object between threads.
- Text.ParseDate: `createFromFormat("Y-m-d")` with no warnings is modelled as strictly four digits, two digits and two digits. PHP also accepts some non-padded forms (such as `2020-1-5`), and those are rejected here.
- Engine.CakeDays.constructor: a key whose month and day are not a month-day of any year (such as `2000-02-30`) is excluded by `Birthdays.IsInput`. The class would hand such a key to `DateTime`, which rolls it over into the next month; that is not modelled. The application never passes such a key, since it accepts only real dates. `Birthdays.IsInput` also asks for a non-empty name list under every key; for an empty list under a new month-day the class would call `sort()` on a null element (classes/CakeDays.php:345), and the application never files an empty list (cakedays-app.php:60).
- App.Fields: the model follows PHP 7, in which `implode($names, " ")` (cakedays-app.php:90), with the array before the separator, joins the names. From PHP 8.0 that argument order throws a `TypeError`, which the `catch (Exception $e)` at line 97 does not catch, so the run stops with `cakedays.csv` opened and no row written; `App.Run`'s one row per cake day holds for PHP 7 only.
- App.Check: likewise PHP 7. From PHP 8.2 `getLastErrors()` returns `false` when there is no warning, and `array_sum(false)` at cakedays-app.php:29 throws a `TypeError` on every row with a valid date; the model keeps the PHP 7 reading, in which a valid date passes that test.
- Sorting by `Ord` agrees with PHP's string order of the keys only for years 0 to 9999. For a negative year or one with five digits, the model's `ksort` order of cake days differs from PHP's.
- Names.SortNames: PHP's `sort()` compares strings that look like numbers numerically. The model compares names character by character.
- App.Check: the repeated-name test is exact string equality. PHP's `in_array` without the strict flag compares numeric strings as numbers, so names such as `1` and `01`, or `10` and `1e1`, count as repeats in the program and not in the model.
- App.Accepts: a file is refused for a repeated name only when two names are equal strings; the loose numeric comparison of `in_array` is not modelled (see App.Check).
- The output's CSV quoting (`fputcsv`) and the rendering of the integers small and large are left out beyond their decimal digits.

## Findings

| source | as written | input that shows it | evidently intended | confidence | as-written member | corrected member |
|---|---|---|---|---|---|---|
| classes/CakeDays.php:252-280 | after moving a cake day, the pass skips the next key, even if that key is the day after the new cake day | 2020 birthdays on 2, 5, 6 and 8 October give raw cake days 5, 6, 7 and 9 October; the merge pass leaves 6, 7 and 9; the health pass moves 7 to Thursday 8 and skips 9, so 8 and 9 October both have cake | no two cake days in a row (classes/CakeDays.php:66-69) | high, not executed | Golden.EarlyRows | Schedule.CakeDaysApart |
