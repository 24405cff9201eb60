/**
 The CakeDays class: it holds the birthdays array, the cake-day stack and
 the export array, and rewrites them in place, one private method per
 pass.  Each method is proved to leave its field as the function that
 models it in the other modules says (StripYears, LeapFix, Populate,
 Merge.Merge, HealthAsWritten, ExportRows), so every theorem proved there
 describes what the object computes.
 */
module Engine {
  import opened Calendar
  import opened Names
  import opened PhpArray
  import opened WorkingDays
  import opened Birthdays
  import opened CakeStack
  import Merge
  import Health
  import opened Export
  import Schedule

  class CakeDays {
    /** The year the schedule is for, which the engine takes from the clock. */
    const year: int
    /** The office closures other than weekends. */
    const holidays: seq<Date>
    /** The birthdays array given to the constructor. */
    ghost const input: BirthdayArray

    var birthdays: BirthdayArray
    var processed: bool
    var cakeDaysStack: Stack
    var cakeDaysExportArr: seq<CakeDayRow>

    /** Before the first getCakeDays the fields are as the constructor left
        them; afterwards the export array holds the schedule. */
    ghost predicate Valid()
      reads this
    {
      && IsInput(input) && holidays == Holidays(year)
      && (!processed ==> birthdays == input && cakeDaysStack == Empty())
      && (processed ==> cakeDaysExportArr == Schedule.CakeDays(year, input))
    }

    constructor(birthdays: BirthdayArray, year: int)
      requires IsInput(birthdays)
      ensures this.year == year && holidays == Holidays(year) && input == birthdays
      ensures this.birthdays == birthdays && !processed && cakeDaysStack == Empty() && cakeDaysExportArr == []
      ensures Valid()
    {
      this.year := year;
      holidays := [Date(year, 1, 1), Date(year, 12, 25), Date(year, 12, 26), Date(year + 1, 1, 1)];
      input := birthdays;
      this.birthdays := birthdays;
      processed := false;
      cakeDaysStack := PArray([], map[]);
      cakeDaysExportArr := [];
    }

    /** The schedule is worked out on the first call only; every call
        returns the stored export array. */
    method GetCakeDays() returns (r: seq<CakeDayRow>)
      requires Valid()
      modifies this
      ensures Valid() && processed
      ensures r == cakeDaysExportArr == Schedule.CakeDays(year, input)
      ensures !old(processed) ==>
        birthdays == Schedule.Prepared(year, input) && cakeDaysStack == Schedule.Final(year, input)
      ensures old(processed) ==> unchanged(this)
    {
      if !processed {
        ProcessCakeDays();
        processed := true;
      }
      r := cakeDaysExportArr;
    }

    method ProcessCakeDays()
      requires holidays == Holidays(year) && IsInput(birthdays) && cakeDaysStack == Empty()
      modifies this`birthdays, this`cakeDaysStack, this`cakeDaysExportArr
      ensures birthdays == Schedule.Prepared(year, old(birthdays))
      ensures cakeDaysStack == Schedule.Final(year, old(birthdays))
      ensures cakeDaysExportArr == Schedule.CakeDays(year, old(birthdays))
    {
      ghost var b := birthdays;
      RemoveBirthdayYears();
      StripYearsSpec(b);
      LeapYearFix();
      LeapFixSpec(StripYears(b), year);
      birthdays := KSort(birthdays, KeyRank);
      assert birthdays == Schedule.Prepared(year, b);
      PopulateCakeDaysStack();
      ghost var st := Populate(holidays, year, birthdays);
      assert cakeDaysStack == st;
      PopulateSpec(holidays, year, birthdays);
      TomorrowCakeTooCheckModify();
      Merge.MergeSpec(holidays, st);
      HealthCheckModifyAsWritten();
      assert cakeDaysStack == Schedule.Checked(year, b);
      cakeDaysStack := KSort(cakeDaysStack, Ord);
      PrepareExport();
    }

    /** removeBirthdayYears: a foreach over a snapshot of the array, with an
        inner foreach over each date's names. */
    method RemoveBirthdayYears()
      requires IsInput(birthdays)
      modifies this`birthdays
      ensures birthdays == StripYears(old(birthdays))
    {
      var snap := birthdays;
      var i := 0;
      while i < |snap.keys|
        invariant 0 <= i <= |snap.keys|
        invariant StripFrom(snap, i, birthdays) == StripYears(snap)
      {
        var date := snap.keys[i];
        var names := snap.vals[date];
        var dateKey := StripYear(date.date);
        ghost var before := birthdays;
        var n := 0;
        while n < |names|
          invariant 0 <= n <= |names|
          invariant PushNames(birthdays, dateKey, names[n..]) == PushNames(before, dateKey, names)
        {
          var name := names[n];
          if dateKey in birthdays.vals {
            birthdays := Assign(birthdays, dateKey, birthdays.vals[dateKey] + [name]);
          } else {
            birthdays := Assign(birthdays, dateKey, [name]);
          }
          assert names[n..][1..] == names[n + 1..];
          n := n + 1;
        }
        PushNamesEffect(before, dateKey, names);
        birthdays := Assign(birthdays, dateKey, SortNames(birthdays.vals[dateKey]));
        birthdays := Unset(birthdays, date);
        i := i + 1;
      }
    }

    method LeapYearFix()
      modifies this`birthdays
      ensures birthdays == LeapFix(old(birthdays), year)
    {
      var isLeapYear := year % 4 == 0 && (year % 100 != 0 || year % 400 == 0);
      if Feb29 in birthdays.vals && !isLeapYear {
        var names := birthdays.vals[Feb29];
        if Mar1 in birthdays.vals {
          birthdays := Assign(birthdays, Mar1, Dedup(birthdays.vals[Mar1] + names));
        } else {
          birthdays := Assign(birthdays, Mar1, names);
        }
        birthdays := Assign(birthdays, Mar1, SortNames(birthdays.vals[Mar1]));
        birthdays := Unset(birthdays, Feb29);
      }
    }

    /** populateCakeDaysStack: the stack gains each birthday's names on its
        cake day. */
    method PopulateCakeDaysStack()
      requires IsReady(birthdays, year)
      modifies this`cakeDaysStack
      ensures cakeDaysStack == PopulateFrom(holidays, year, birthdays, 0, old(cakeDaysStack))
    {
      var i := 0;
      while i < |birthdays.keys|
        invariant 0 <= i <= |birthdays.keys|
        invariant PopulateFrom(holidays, year, birthdays, i, cakeDaysStack)
               == PopulateFrom(holidays, year, birthdays, 0, old(cakeDaysStack))
      {
        var date := birthdays.keys[i];
        var names := birthdays.vals[date];
        var fullDate := InYear(year, date);
        var working := IsWorkingDay(fullDate);
        var keyDate;
        if working {
          keyDate := GetNextWorkingDay(fullDate);
        } else {
          keyDate := GetNextNextWorkingDay(fullDate);
        }
        if keyDate in cakeDaysStack.vals {
          cakeDaysStack := Assign(cakeDaysStack, keyDate, SortNames(cakeDaysStack.vals[keyDate] + names));
        } else {
          cakeDaysStack := Assign(cakeDaysStack, keyDate, names);
        }
        i := i + 1;
      }
    }

    /** isWorkingDay: not a Saturday, not a Sunday, and no holiday. */
    method IsWorkingDay(date: Date) returns (r: bool)
      ensures r <==> WorkingDays.IsWorkingDay(holidays, date)
    {
      var weekday := DayOfWeek(date);
      r := !(weekday == 5 || weekday == 6 || date in holidays);
    }

    /** getNextWorkingDay: steps a day at a time until the office is open. */
    method GetNextWorkingDay(date: Date) returns (r: Date)
      requires ValidDate(date)
      ensures ValidDate(r) && Ord(date) < Ord(r) && WorkingDays.IsWorkingDay(holidays, r)
      ensures forall y :: ValidDate(y) && Ord(date) < Ord(y) < Ord(r) ==> !WorkingDays.IsWorkingDay(holidays, y)
      ensures r == NextWorkingDay(holidays, date)
    {
      r := Next(date);
      var working := IsWorkingDay(r);
      while !working
        invariant ValidDate(r) && FirstWorkingFrom(holidays, r) == NextWorkingDay(holidays, date)
        invariant working <==> WorkingDays.IsWorkingDay(holidays, r)
        decreases SearchBound(holidays, r)
      {
        NextDayNumber(r);
        r := Next(r);
        working := IsWorkingDay(r);
      }
      forall y | ValidDate(y) && Ord(date) < Ord(y) < Ord(r) ensures !WorkingDays.IsWorkingDay(holidays, y) {
        NextWorkingDaySkipsOnlyClosures(holidays, date, y);
      }
    }

    method GetNextNextWorkingDay(date: Date) returns (r: Date)
      requires ValidDate(date)
      ensures r == NextNextWorkingDay(holidays, date)
      ensures Ord(NextWorkingDay(holidays, date)) < Ord(r) && WorkingDays.IsWorkingDay(holidays, r)
    {
      var next := GetNextWorkingDay(date);
      r := GetNextWorkingDay(next);
    }

    /** tomorrowCakeTooCheckModiy: a foreach over a snapshot of the stack
        with the skip flag. */
    method TomorrowCakeTooCheckModify()
      requires PhpArray.Valid(cakeDaysStack)
      modifies this`cakeDaysStack
      ensures cakeDaysStack == Merge.Merge(old(cakeDaysStack))
    {
      var snap := cakeDaysStack;
      var skipDayCheck := false;
      var i := 0;
      while i < |snap.keys|
        invariant 0 <= i <= |snap.keys|
        invariant Merge.MergeFrom(snap, i, Walk(skipDayCheck, cakeDaysStack)) == Merge.MergeFrom(snap, 0, Walk(false, snap))
      {
        var date := snap.keys[i];
        var names := snap.vals[date];
        if !skipDayCheck {
          if Next(date) in cakeDaysStack.vals {
            MergeIntoNextDay(date, names);
            skipDayCheck := true;
          }
        } else {
          skipDayCheck := false;
        }
        i := i + 1;
      }
    }

    /** healthCheckModify in its corrected form, without the skip flag. */
    method HealthCheckModify()
      requires Ordered(cakeDaysStack)
      modifies this`cakeDaysStack
      ensures cakeDaysStack == Health.Health(holidays, old(cakeDaysStack))
    {
      var snap := cakeDaysStack;
      var i := 0;
      while i < |snap.keys|
        invariant 0 <= i <= |snap.keys|
        invariant Health.HealthFrom(holidays, snap, i, cakeDaysStack) == Health.Health(holidays, snap)
      {
        var date := snap.keys[i];
        var names := snap.vals[date];
        if Prev(date) in cakeDaysStack.vals {
          MoveToNextWorkingDay(date, names);
        }
        i := i + 1;
      }
    }

    /** healthCheckModify as written, with the skip flag. */
    method HealthCheckModifyAsWritten()
      requires Ordered(cakeDaysStack)
      modifies this`cakeDaysStack
      ensures cakeDaysStack == Health.HealthAsWritten(holidays, old(cakeDaysStack))
    {
      var snap := cakeDaysStack;
      var skipDayCheck := false;
      var i := 0;
      while i < |snap.keys|
        invariant 0 <= i <= |snap.keys|
        invariant Health.HealthFromAsWritten(holidays, snap, i, Walk(skipDayCheck, cakeDaysStack))
               == Health.HealthFromAsWritten(holidays, snap, 0, Walk(false, snap))
      {
        var date := snap.keys[i];
        var names := snap.vals[date];
        if !skipDayCheck {
          if Prev(date) in cakeDaysStack.vals {
            MoveToNextWorkingDay(date, names);
            skipDayCheck := true;
          }
        } else {
          skipDayCheck := false;
        }
        i := i + 1;
      }
    }

    /** The move both versions of healthCheckModify make: the names go to
        the next working day, merged with any already there, and the day is
        dropped. */
    method MoveToNextWorkingDay(date: Date, names: seq<string>)
      requires ValidDate(date)
      modifies this`cakeDaysStack
      ensures var t := NextWorkingDay(holidays, date);
        cakeDaysStack == Unset(Assign(old(cakeDaysStack), t, Health.MovedNames(old(cakeDaysStack), t, names)), date)
    {
      var nextWorkingDayKey := GetNextWorkingDay(date);
      ghost var live := cakeDaysStack;
      var merged;
      if nextWorkingDayKey in cakeDaysStack.vals {
        merged := Dedup(cakeDaysStack.vals[nextWorkingDayKey] + names);
      } else {
        merged := names;
      }
      cakeDaysStack := Assign(cakeDaysStack, nextWorkingDayKey, merged);
      cakeDaysStack := Assign(cakeDaysStack, nextWorkingDayKey, SortNames(cakeDaysStack.vals[nextWorkingDayKey]));
      AssignTwice(live, nextWorkingDayKey, merged, SortNames(merged));
      assert SortNames(merged) == Health.MovedNames(live, nextWorkingDayKey, names);
      cakeDaysStack := Unset(cakeDaysStack, date);
    }

    /** The merge tomorrowCakeTooCheckModiy makes: the names join the next
        day's, each once and sorted, and the day is dropped. */
    method MergeIntoNextDay(date: Date, names: seq<string>)
      requires Next(date) in cakeDaysStack.vals
      modifies this`cakeDaysStack
      ensures var n := Next(date);
        cakeDaysStack == Unset(Assign(old(cakeDaysStack), n, SortedSet(old(cakeDaysStack).vals[n] + names)), date)
    {
      var nextDayKey := Next(date);
      ghost var live := cakeDaysStack;
      var merged := Dedup(cakeDaysStack.vals[nextDayKey] + names);
      cakeDaysStack := Assign(cakeDaysStack, nextDayKey, merged);
      cakeDaysStack := Assign(cakeDaysStack, nextDayKey, SortNames(cakeDaysStack.vals[nextDayKey]));
      AssignTwice(live, nextDayKey, merged, SortNames(merged));
      assert SortNames(merged) == SortedSet(live.vals[nextDayKey] + names);
      cakeDaysStack := Unset(cakeDaysStack, date);
    }

    /** prepareExport: one entry per key of the stack, in key order. */
    method PrepareExport()
      requires PhpArray.Valid(cakeDaysStack)
      modifies this`cakeDaysExportArr
      ensures cakeDaysExportArr == ExportRows(cakeDaysStack.keys, cakeDaysStack.vals)
    {
      cakeDaysExportArr := [];
      var i := 0;
      while i < |cakeDaysStack.keys|
        invariant 0 <= i <= |cakeDaysStack.keys|
        invariant cakeDaysExportArr == ExportRows(cakeDaysStack.keys[..i], cakeDaysStack.vals)
      {
        var date := cakeDaysStack.keys[i];
        var names := cakeDaysStack.vals[date];
        var cakeDayDetails := CakeDayRow(date, if |names| == 1 then 1 else 0, if |names| > 1 then 1 else 0, names);
        assert cakeDaysStack.keys[..i + 1][..i] == cakeDaysStack.keys[..i];
        cakeDaysExportArr := cakeDaysExportArr + [cakeDayDetails];
        i := i + 1;
      }
      assert cakeDaysStack.keys[..i] == cakeDaysStack.keys;
    }
  }
}
