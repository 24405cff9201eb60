/**
 Two 2020 schedules worked out from the birthdays array through every pass
 of processCakeDays: the October week of the engine's own test suite, and
 four birthdays early in October on which the health check as written
 leaves two cake days in a row.
 */
module Golden {
  import opened Calendar
  import opened WorkingDays
  import opened Names
  import opened Sequences
  import opened PhpArray
  import opened Birthdays
  import opened CakeStack
  import opened Export
  import Merge
  import Health
  import Schedule
  import Scenarios

  /** A day of October 2020. */
  function Oct(d: int): Date
  {
    Date(2020, 10, d)
  }

  // ---------------------------------------------------------------------
  // The October week.

  /** The birth date of each person of the October week test. */
  function OctoberBirthday(x: string): Date
  {
    if x == "Harry" then Date(1979, 10, 12)
    else if x == "Xavier" then Date(1960, 10, 12)
    else if x == "William" then Date(1961, 10, 13)
    else if x == "Elizabeth" then Date(1993, 10, 14)
    else if x == "Jeff" then Date(1958, 10, 15)
    else if x == "Bob" then Date(1974, 10, 15)
    else if x == "Luka" then Date(1951, 10, 16)
    else if x == "Ellie" then Date(1986, 10, 17)
    else if x == "Norman" then Date(1988, 10, 17)
    else Date(1984, 10, 18)
  }

  /** The birthdays array of the October week test, keys in the order given. */
  function OctoberWeekInput(): BirthdayArray
  {
    PArray(
      [ Full(Date(1979, 10, 12)), Full(Date(1960, 10, 12)), Full(Date(1961, 10, 13)),
        Full(Date(1993, 10, 14)), Full(Date(1958, 10, 15)), Full(Date(1974, 10, 15)),
        Full(Date(1951, 10, 16)), Full(Date(1986, 10, 17)), Full(Date(1988, 10, 17)),
        Full(Date(1984, 10, 18)) ],
      map[ Full(Date(1979, 10, 12)) := ["Harry"], Full(Date(1960, 10, 12)) := ["Xavier"],
           Full(Date(1961, 10, 13)) := ["William"], Full(Date(1993, 10, 14)) := ["Elizabeth"],
           Full(Date(1958, 10, 15)) := ["Jeff"], Full(Date(1974, 10, 15)) := ["Bob"],
           Full(Date(1951, 10, 16)) := ["Luka"], Full(Date(1986, 10, 17)) := ["Ellie"],
           Full(Date(1988, 10, 17)) := ["Norman"], Full(Date(1984, 10, 18)) := ["Fiona"] ])
  }

  /** The people of the October week test. */
  const OctoberPeople: set<string> :=
    {"Harry", "Xavier", "William", "Elizabeth", "Jeff", "Bob", "Luka", "Ellie", "Norman", "Fiona"}

  /** The day of October 2020 a birthday on day dd of the week of 12 October
      gives cake on, before either pass runs: from Monday 12 to Thursday 15
      the next day, Friday 16 on Monday 19, the weekend on Tuesday 20. */
  function OctoberCakeDay(dd: int): int
  {
    if dd <= 15 then dd + 1 else if dd == 16 then 19 else 20
  }

  lemma OctoberWeekIsInput()
    ensures IsInput(OctoberWeekInput())
  {
    OctoberWeekKeys();
    OctoberWeekDates();
    assert DaysInMonth(1, 10) == 31;
  }

  lemma OctoberWeekKeys()
    ensures Valid(OctoberWeekInput())
  {
  }

  lemma OctoberWeekDates()
    ensures forall k :: k in OctoberWeekInput().vals ==>
      k.Full? && |OctoberWeekInput().vals[k]| > 0 && k.date.month == 10 && 12 <= k.date.day <= 18
  {
  }

  /** Every key of the October week holds one name, born on that date. */
  lemma OctoberWeekNames()
    ensures forall k :: k in OctoberWeekInput().vals ==>
      var x := OctoberWeekInput().vals[k][0];
      && OctoberWeekInput().vals[k] == [x] && x in OctoberPeople
      && k == Full(OctoberBirthday(x)) && 12 <= k.date.day <= 18
  {
    var b := OctoberWeekInput();
    forall k | k in b.vals
      ensures var x := b.vals[k][0];
        && b.vals[k] == [x] && x in OctoberPeople && k == Full(OctoberBirthday(x)) && 12 <= k.date.day <= 18
    {
      var x := b.vals[k][0];
      assert x in OctoberPeople && k == Full(OctoberBirthday(x));
    }
  }

  /** Everybody of the October week has a key of their own. */
  lemma OctoberWeekKeyOf(x: string)
    requires x in OctoberPeople
    ensures var k := Full(OctoberBirthday(x));
      k in OctoberWeekInput().vals && OctoberWeekInput().vals[k] == [x] && 12 <= k.date.day <= 18
  {
  }

  /** The raw cake day of a birthday in the week of 12 October, whatever
      the year of birth. */
  lemma OctoberOwedDay(y: int, dd: int)
    requires 12 <= dd <= 18 && ValidDate(Date(y, 10, dd))
    ensures Schedule.OwedDay(2020, Date(y, 10, dd)) == Oct(OctoberCakeDay(dd))
  {
    Scenarios.OctoberCakeDays();
    assert Schedule.TargetBirthday(2020, Date(y, 10, dd)) == Oct(dd);
  }

  /** An input in which everybody of people has exactly one birthday key,
      on the date birth gives, holding their name alone. */
  ghost predicate OneKeyEach(b: BirthdayArray, people: set<string>, birth: string -> Date)
  {
    && IsInput(b)
    && (forall k :: k in b.vals ==>
          var x := b.vals[k][0];
          b.vals[k] == [x] && x in people && k == Full(birth(x)))
    && (forall x :: x in people ==> Full(birth(x)) in b.vals && b.vals[Full(birth(x))] == [x])
  }

  /** On such an input, populateCakeDaysStack puts each person on the raw
      cake day of their birthday and nowhere else. */
  lemma OneKeyEachBuilt(year: int, b: BirthdayArray, people: set<string>, birth: string -> Date, d: Date, x: string)
    requires OneKeyEach(b, people, birth)
    ensures d in Schedule.Built(year, b).vals && x in Schedule.Built(year, b).vals[d] <==>
      x in people && Schedule.OwedDay(year, birth(x)) == d
  {
    Schedule.BuiltHas(year, b, d, x);
    OneKeyEachOwed(year, b, people, birth, d, x);
  }

  /** On such an input, the keys owed cake on d holding x are x's own. */
  lemma OneKeyEachOwed(year: int, b: BirthdayArray, people: set<string>, birth: string -> Date, d: Date, x: string)
    requires OneKeyEach(b, people, birth)
    ensures (exists k :: k in b.vals && Schedule.OwedDay(year, k.date) == d && x in b.vals[k]) <==>
      x in people && Schedule.OwedDay(year, birth(x)) == d
  {
    if x in people && Schedule.OwedDay(year, birth(x)) == d {
      var k := Full(birth(x));
      assert k in b.vals && x in b.vals[k];
    }
    if k :| k in b.vals && Schedule.OwedDay(year, k.date) == d && x in b.vals[k] {
      assert b.vals[k] == [b.vals[k][0]] && k == Full(birth(b.vals[k][0]));
    }
  }

  lemma OctoberWeekTable()
    ensures OneKeyEach(OctoberWeekInput(), OctoberPeople, OctoberBirthday)
  {
    OctoberWeekIsInput();
    OctoberWeekNames();
    forall x | x in OctoberPeople
      ensures Full(OctoberBirthday(x)) in OctoberWeekInput().vals
           && OctoberWeekInput().vals[Full(OctoberBirthday(x))] == [x]
    {
      OctoberWeekKeyOf(x);
    }
  }

  /** Everybody of the October week is owed cake on the day their birth
      date's day of the month gives. */
  lemma OctoberWeekOwed(x: string)
    requires x in OctoberPeople
    ensures ValidDate(OctoberBirthday(x))
    ensures Schedule.OwedDay(2020, OctoberBirthday(x)) == Oct(OctoberCakeDay(OctoberBirthday(x).day))
  {
    var d := OctoberBirthday(x);
    assert d == Date(d.year, 10, d.day) && 12 <= d.day <= 18;
    OctoberOwedDay(d.year, d.day);
  }

  /** Who shares which raw cake day in the October week. */
  lemma OctoberGroups(x: string)
    requires x in OctoberPeople
    ensures var c := OctoberCakeDay(OctoberBirthday(x).day);
      && (c == 13 <==> x == "Harry" || x == "Xavier")
      && (c == 14 <==> x == "William")
      && (c == 15 <==> x == "Elizabeth")
      && (c == 16 <==> x == "Jeff" || x == "Bob")
      && (c == 19 <==> x == "Luka")
      && (c == 20 <==> x == "Ellie" || x == "Norman" || x == "Fiona")
  {
  }

  /** A person of the October week owed cake on Oct(c). */
  function OctoberOneOf(c: int): string
  {
    if c == 13 then "Harry" else if c == 14 then "William" else if c == 15 then "Elizabeth"
    else if c == 16 then "Jeff" else if c == 19 then "Luka" else "Ellie"
  }

  /** The six cake days of the October week. */
  const OctoberDays: seq<Date> := [Oct(13), Oct(14), Oct(15), Oct(16), Oct(19), Oct(20)]

  /** The cake days of the stack populateCakeDaysStack builds for the
      October week: 13, 14, 15, 16, 19 and 20 October, in that order. */
  lemma OctoberBuiltKeys(b: BirthdayArray)
    requires OneKeyEach(b, OctoberPeople, OctoberBirthday)
    ensures Schedule.Built(2020, b).keys == OctoberDays
  {
    var st := Schedule.Built(2020, b);
    forall d ensures d in st.keys <==> d in OctoberDays {
      OctoberBuiltDay(b, d);
    }
    OctoberDaysInOrder();
    ChronologicalUnique(st.keys, OctoberDays);
  }

  lemma OctoberDaysInOrder()
    ensures Chronological(OctoberDays)
  {
  }

  lemma OctoberBuiltDay(b: BirthdayArray, d: Date)
    requires OneKeyEach(b, OctoberPeople, OctoberBirthday)
    ensures d in Schedule.Built(2020, b).vals <==> d in OctoberDays
  {
    if d in OctoberDays {
      assert d == Oct(d.day);
      OctoberDayIn(b, d.day);
    } else {
      OctoberNotIn(b, d);
    }
  }

  lemma OctoberDayIn(b: BirthdayArray, c: int)
    requires OneKeyEach(b, OctoberPeople, OctoberBirthday)
    requires Oct(c) in OctoberDays
    ensures Oct(c) in Schedule.Built(2020, b).vals
  {
    OctoberDayBuilt(b, c);
    Schedule.BuiltDays(2020, b, Oct(c));
  }

  lemma OctoberNotIn(b: BirthdayArray, d: Date)
    requires OneKeyEach(b, OctoberPeople, OctoberBirthday)
    requires d !in OctoberDays
    ensures d !in Schedule.Built(2020, b).vals
  {
    Schedule.BuiltDays(2020, b, d);
    if exists k :: k in b.vals && Schedule.OwedDay(2020, k.date) == d {
      OctoberBuiltOnly(b, d);
    }
  }

  lemma OctoberBuiltOnly(b: BirthdayArray, d: Date)
    requires OneKeyEach(b, OctoberPeople, OctoberBirthday)
    requires exists k :: k in b.vals && Schedule.OwedDay(2020, k.date) == d
    ensures d in OctoberDays
  {
    var k :| k in b.vals && Schedule.OwedDay(2020, k.date) == d;
    OctoberOwedIn(b.vals[k][0]);
  }

  lemma OctoberDayBuilt(b: BirthdayArray, c: int)
    requires OneKeyEach(b, OctoberPeople, OctoberBirthday)
    requires Oct(c) in OctoberDays
    ensures exists k :: k in b.vals && Schedule.OwedDay(2020, k.date) == Oct(c)
  {
    var x := OctoberOneOf(c);
    OctoberDayOwed(c);
    assert Full(OctoberBirthday(x)) in b.vals;
  }

  /** Everybody of the October week is owed cake on one of its six days. */
  lemma OctoberOwedIn(x: string)
    requires x in OctoberPeople
    ensures Schedule.OwedDay(2020, OctoberBirthday(x)) in OctoberDays
  {
    OctoberWeekOwed(x);
    var c := OctoberCakeDay(OctoberBirthday(x).day);
    assert c == 13 || c == 14 || c == 15 || c == 16 || c == 19 || c == 20;
  }

  /** Each of the six days is owed to somebody. */
  lemma OctoberDayOwed(c: int)
    requires Oct(c) in OctoberDays
    ensures OctoberOneOf(c) in OctoberPeople
    ensures Schedule.OwedDay(2020, OctoberBirthday(OctoberOneOf(c))) == Oct(c)
  {
    assert c == 13 || c == 14 || c == 15 || c == 16 || c == 19 || c == 20;
    OctoberWeekOwed(OctoberOneOf(c));
  }

  /** Each of those days holds exactly the names owed on it. */
  lemma OctoberBuiltNames(b: BirthdayArray, c: int, x: string)
    requires OneKeyEach(b, OctoberPeople, OctoberBirthday) && Oct(c) in Schedule.Built(2020, b).vals
    ensures x in Schedule.Built(2020, b).vals[Oct(c)] <==>
      x in OctoberPeople && OctoberCakeDay(OctoberBirthday(x).day) == c
  {
    OneKeyEachBuilt(2020, b, OctoberPeople, OctoberBirthday, Oct(c), x);
    if x in OctoberPeople {
      OctoberWeekOwed(x);
    }
  }

  // ---------------------------------------------------------------------
  // The October week through tomorrowCakeTooCheckModiy, healthCheckModify,
  // the final ksort and prepareExport.

  /** The six days come in three pairs of consecutive days. */
  lemma OctoberPaired()
    ensures Merge.Paired(OctoberDays) && Merge.Laters(OctoberDays) == [Oct(14), Oct(16), Oct(20)]
  {
    assert Next(Oct(13)) == Oct(14) && Next(Oct(15)) == Oct(16) && Next(Oct(19)) == Oct(20);
    assert OctoberDays[2..] == [Oct(15), Oct(16), Oct(19), Oct(20)];
    assert OctoberDays[2..][2..] == [Oct(19), Oct(20)];
    assert OctoberDays[2..][2..][2..] == [];
  }

  /** tomorrowCakeTooCheckModiy folds each of the three pairs into its later
      day: the stack keeps 14, 16 and 20 October, each holding the names of
      both days of its pair. */
  lemma OctoberMerged(b: BirthdayArray)
    requires OneKeyEach(b, OctoberPeople, OctoberBirthday)
    ensures Schedule.Merged(2020, b).keys == [Oct(14), Oct(16), Oct(20)]
    ensures var m := Schedule.Merged(2020, b).vals; var s := Schedule.Built(2020, b).vals;
      && Oct(13) in s && Oct(14) in s && Oct(15) in s && Oct(16) in s && Oct(19) in s && Oct(20) in s
      && Oct(14) in m && Oct(16) in m && Oct(20) in m
      && m[Oct(14)] == SortedSet(s[Oct(14)] + s[Oct(13)])
      && m[Oct(16)] == SortedSet(s[Oct(16)] + s[Oct(15)])
      && m[Oct(20)] == SortedSet(s[Oct(20)] + s[Oct(19)])
  {
    OctoberBuiltKeys(b);
    OctoberMergeStack(Schedule.Built(2020, b));
  }

  /** The merge pass over any stack on the six days of the October week. */
  lemma OctoberMergeStack(s: Stack)
    requires Valid(s) && s.keys == OctoberDays
    ensures Merge.Merge(s).keys == [Oct(14), Oct(16), Oct(20)]
    ensures var m := Merge.Merge(s).vals;
      && Oct(13) in s.vals && Oct(14) in s.vals && Oct(15) in s.vals
      && Oct(16) in s.vals && Oct(19) in s.vals && Oct(20) in s.vals
      && Oct(14) in m && Oct(16) in m && Oct(20) in m
      && m[Oct(14)] == SortedSet(s.vals[Oct(14)] + s.vals[Oct(13)])
      && m[Oct(16)] == SortedSet(s.vals[Oct(16)] + s.vals[Oct(15)])
      && m[Oct(20)] == SortedSet(s.vals[Oct(20)] + s.vals[Oct(19)])
  {
    OctoberPaired();
    Merge.MergePaired(s);
    OctoberDaysInOrder();
    ChronologicalDistinct(s.keys);
    Merge.PairedAt(s.keys, s.vals, 0);
    Merge.PairedAt(s.keys, s.vals, 1);
    Merge.PairedAt(s.keys, s.vals, 2);
  }

  /** names are the people whose raw cake day is c or p. */
  ghost predicate OwedOnEither(names: seq<string>, c: int, p: int)
  {
    forall x :: x in names <==>
      (x in OctoberPeople && (OctoberCakeDay(OctoberBirthday(x).day) == c || OctoberCakeDay(OctoberBirthday(x).day) == p))
  }

  /** The merged names of a pair are the sorted people owed cake on either
      of its days. */
  lemma OctoberPairNames(b: BirthdayArray, c: int, p: int, names: seq<string>)
    requires OneKeyEach(b, OctoberPeople, OctoberBirthday)
    requires Oct(c) in Schedule.Built(2020, b).vals && Oct(p) in Schedule.Built(2020, b).vals
    requires Sorted(names) && Distinct(names) && OwedOnEither(names, c, p)
    ensures SortedSet(Schedule.Built(2020, b).vals[Oct(c)] + Schedule.Built(2020, b).vals[Oct(p)]) == names
  {
    var s := Schedule.Built(2020, b).vals;
    var r := SortedSet(s[Oct(c)] + s[Oct(p)]);
    forall x ensures x in r <==> x in names {
      OctoberBuiltNames(b, c, x);
      OctoberBuiltNames(b, p, x);
    }
    SortedSetUnique(r, names);
  }

  /** Harry and Xavier (raw cake day 13) with William (14), in order. */
  lemma OctoberGroup14()
    ensures OwedOnEither(["Harry", "William", "Xavier"], 14, 13)
    ensures Sorted(["Harry", "William", "Xavier"]) && Distinct(["Harry", "William", "Xavier"])
  {
    forall x | x in OctoberPeople {
      OctoberGroups(x);
    }
  }

  /** Elizabeth (raw cake day 15) with Bob and Jeff (16), in order. */
  lemma OctoberGroup16()
    ensures OwedOnEither(["Bob", "Elizabeth", "Jeff"], 16, 15)
    ensures Sorted(["Bob", "Elizabeth", "Jeff"]) && Distinct(["Bob", "Elizabeth", "Jeff"])
  {
    forall x | x in OctoberPeople {
      OctoberGroups(x);
    }
  }

  /** Luka (raw cake day 19) with Ellie, Fiona and Norman (20), in order. */
  lemma OctoberGroup20()
    ensures OwedOnEither(["Ellie", "Fiona", "Luka", "Norman"], 20, 19)
    ensures Sorted(["Ellie", "Fiona", "Luka", "Norman"]) && Distinct(["Ellie", "Fiona", "Luka", "Norman"])
  {
    forall x | x in OctoberPeople {
      OctoberGroups(x);
    }
  }

  /** healthCheckModify finds nothing to move: no merged day follows
      another cake day. */
  lemma OctoberChecked(b: BirthdayArray)
    requires OneKeyEach(b, OctoberPeople, OctoberBirthday)
    ensures Schedule.Checked(2020, b) == Schedule.Merged(2020, b)
  {
    OctoberMergedKeys(b);
    OctoberIdle(Holidays(2020), Schedule.Merged(2020, b));
  }

  lemma OctoberIdle(hs: seq<Date>, m: Stack)
    requires Ordered(m) && m.keys == [Oct(14), Oct(16), Oct(20)]
    ensures Health.HealthAsWritten(hs, m) == m
  {
    forall x | x in m.vals ensures Prev(x) !in m.vals {
      assert x == Oct(14) || x == Oct(16) || x == Oct(20);
    }
    Health.HealthAsWrittenIdle(hs, m);
  }

  lemma OctoberMergedKeys(b: BirthdayArray)
    requires OneKeyEach(b, OctoberPeople, OctoberBirthday)
    ensures Schedule.Merged(2020, b).keys == [Oct(14), Oct(16), Oct(20)]
  {
    OctoberMerged(b);
  }

  /** The ksort in getCakeDays leaves the checked stack as it is. */
  lemma OctoberFinal(b: BirthdayArray)
    requires OneKeyEach(b, OctoberPeople, OctoberBirthday)
    ensures Schedule.Final(2020, b) == Schedule.Merged(2020, b)
  {
    OctoberChecked(b);
    KSortStack(Schedule.Checked(2020, b));
  }

  /** The names on each merged day, as the test expects them. */
  lemma OctoberMergedNames(b: BirthdayArray)
    requires OneKeyEach(b, OctoberPeople, OctoberBirthday)
    ensures var m := Schedule.Merged(2020, b);
      && m.keys == [Oct(14), Oct(16), Oct(20)]
      && Oct(14) in m.vals && Oct(16) in m.vals && Oct(20) in m.vals
      && m.vals[Oct(14)] == ["Harry", "William", "Xavier"]
      && m.vals[Oct(16)] == ["Bob", "Elizabeth", "Jeff"]
      && m.vals[Oct(20)] == ["Ellie", "Fiona", "Luka", "Norman"]
  {
    OctoberMerged(b);
    OctoberGroup14();
    OctoberGroup16();
    OctoberGroup20();
    OctoberPairNames(b, 14, 13, ["Harry", "William", "Xavier"]);
    OctoberPairNames(b, 16, 15, ["Bob", "Elizabeth", "Jeff"]);
    OctoberPairNames(b, 20, 19, ["Ellie", "Fiona", "Luka", "Norman"]);
  }

  /** getCakeDays on any input with one person per birthday as in
      testOctoberWeek exports the three large-cake rows the test expects. */
  lemma OctoberWeekRows(b: BirthdayArray)
    requires OneKeyEach(b, OctoberPeople, OctoberBirthday)
    ensures Schedule.CakeDays(2020, b) == [
      CakeDayRow(Date(2020, 10, 14), 0, 1, ["Harry", "William", "Xavier"]),
      CakeDayRow(Date(2020, 10, 16), 0, 1, ["Bob", "Elizabeth", "Jeff"]),
      CakeDayRow(Date(2020, 10, 20), 0, 1, ["Ellie", "Fiona", "Luka", "Norman"])]
  {
    OctoberFinal(b);
    OctoberMergedNames(b);
    OctoberExport(Schedule.Final(2020, b));
  }

  /** prepareExport on the three merged days: more than one name each, so
      every row counts a large cake and no small one. */
  lemma OctoberExport(f: Stack)
    requires f.keys == [Oct(14), Oct(16), Oct(20)]
    requires Oct(14) in f.vals && Oct(16) in f.vals && Oct(20) in f.vals
    requires f.vals[Oct(14)] == ["Harry", "William", "Xavier"]
    requires f.vals[Oct(16)] == ["Bob", "Elizabeth", "Jeff"]
    requires f.vals[Oct(20)] == ["Ellie", "Fiona", "Luka", "Norman"]
    ensures ExportRows(f.keys, f.vals) == [
      CakeDayRow(Date(2020, 10, 14), 0, 1, ["Harry", "William", "Xavier"]),
      CakeDayRow(Date(2020, 10, 16), 0, 1, ["Bob", "Elizabeth", "Jeff"]),
      CakeDayRow(Date(2020, 10, 20), 0, 1, ["Ellie", "Fiona", "Luka", "Norman"])]
  {
    var rows := ExportRows(f.keys, f.vals);
    assert rows[0] == Entry(Oct(14), f.vals[Oct(14)]);
    assert rows[1] == Entry(Oct(16), f.vals[Oct(16)]);
    assert rows[2] == Entry(Oct(20), f.vals[Oct(20)]);
  }

  /** testOctoberWeek: the ten birthdays of the week of 12 October 2020. */
  lemma OctoberWeek()
    ensures IsInput(OctoberWeekInput())
    ensures Schedule.CakeDays(2020, OctoberWeekInput()) == [
      CakeDayRow(Date(2020, 10, 14), 0, 1, ["Harry", "William", "Xavier"]),
      CakeDayRow(Date(2020, 10, 16), 0, 1, ["Bob", "Elizabeth", "Jeff"]),
      CakeDayRow(Date(2020, 10, 20), 0, 1, ["Ellie", "Fiona", "Luka", "Norman"])]
  {
    OctoberWeekTable();
    OctoberWeekRows(OctoberWeekInput());
  }

  // ---------------------------------------------------------------------
  // Four birthdays early in October: the health check as written leaves
  // cake days on Thursday 8 and Friday 9 October.

  /** The birth date of each person of the early-October example. */
  function EarlyBirthday(x: string): Date
  {
    if x == "Ann" then Date(1990, 10, 2)
    else if x == "Ben" then Date(1985, 10, 5)
    else if x == "Cat" then Date(1977, 10, 6)
    else Date(1969, 10, 8)
  }

  const EarlyPeople: set<string> := {"Ann", "Ben", "Cat", "Dan"}

  /** The birthdays array of the early-October example. */
  function EarlyInput(): BirthdayArray
  {
    PArray(
      [Full(Date(1990, 10, 2)), Full(Date(1985, 10, 5)), Full(Date(1977, 10, 6)), Full(Date(1969, 10, 8))],
      map[ Full(Date(1990, 10, 2)) := ["Ann"], Full(Date(1985, 10, 5)) := ["Ben"],
           Full(Date(1977, 10, 6)) := ["Cat"], Full(Date(1969, 10, 8)) := ["Dan"] ])
  }

  /** The raw cake day, in October 2020, of a birthday on day dd of October:
      Friday 2 gives Monday 5, and Monday to Thursday give the next day. */
  function EarlyCakeDay(dd: int): int
  {
    if dd == 2 then 5 else dd + 1
  }

  /** The four raw cake days. */
  const EarlyDays: seq<Date> := [Oct(5), Oct(6), Oct(7), Oct(9)]

  /** Friday 2 to Monday 12 October 2020. */
  lemma EarlyWeekdays()
    ensures forall d :: d == 2 || 5 <= d <= 9 || d == 12 ==> IsWorkingDay(Holidays(2020), Oct(d))
    ensures forall d :: d == 3 || d == 4 || d == 10 || d == 11 ==> !IsWorkingDay(Holidays(2020), Oct(d))
  {
    forall d | 2 <= d <= 12 ensures DayOfWeek(Oct(d)) == (d + 2) % 7 {
      Scenarios.Weekday2020(10, d);
    }
  }

  /** The next working days the example needs. */
  lemma EarlyNextWorkingDays()
    ensures NextWorkingDay(Holidays(2020), Oct(2)) == Oct(5)
    ensures forall d :: 5 <= d <= 8 ==> NextWorkingDay(Holidays(2020), Oct(d)) == Oct(d + 1)
    ensures NextWorkingDay(Holidays(2020), Oct(9)) == Oct(12)
  {
    EarlyWeekdays();
    EarlyAfterWeekend(Holidays(2020), 2);
    EarlyAfterWeekend(Holidays(2020), 9);
    forall d | 5 <= d <= 8 ensures NextWorkingDay(Holidays(2020), Oct(d)) == Oct(d + 1) {
      EarlyOpenNext(Holidays(2020), d);
    }
  }

  /** From a Friday, the next working day is the Monday after a closed
      weekend. */
  lemma EarlyAfterWeekend(hs: seq<Date>, d: int)
    requires 1 <= d <= 28 && !IsWorkingDay(hs, Oct(d + 1)) && !IsWorkingDay(hs, Oct(d + 2))
    requires IsWorkingDay(hs, Oct(d + 3))
    ensures NextWorkingDay(hs, Oct(d)) == Oct(d + 3)
  {
    assert Next(Oct(d)) == Oct(d + 1) && Next(Oct(d + 1)) == Oct(d + 2) && Next(Oct(d + 2)) == Oct(d + 3);
    Scenarios.ClosedNext(hs, Oct(d));
    Scenarios.ClosedNext(hs, Oct(d + 1));
    Scenarios.OpenNext(hs, Oct(d + 2));
  }

  lemma EarlyOpenNext(hs: seq<Date>, d: int)
    requires 1 <= d <= 30 && IsWorkingDay(hs, Oct(d + 1))
    ensures NextWorkingDay(hs, Oct(d)) == Oct(d + 1)
  {
    assert Next(Oct(d)) == Oct(d + 1);
    Scenarios.OpenNext(hs, Oct(d));
  }

  /** The raw cake day of an early-October birthday, whatever the year of
      birth. */
  lemma EarlyOwedDay(y: int, dd: int)
    requires (dd == 2 || dd == 5 || dd == 6 || dd == 8) && ValidDate(Date(y, 10, dd))
    ensures Schedule.OwedDay(2020, Date(y, 10, dd)) == Oct(EarlyCakeDay(dd))
  {
    EarlyWeekdays();
    EarlyNextWorkingDays();
    assert Schedule.TargetBirthday(2020, Date(y, 10, dd)) == Oct(dd);
  }

  /** Everybody of the example is owed cake on the day their birth date's
      day of the month gives. */
  lemma EarlyOwed(x: string)
    requires x in EarlyPeople
    ensures ValidDate(EarlyBirthday(x))
    ensures Schedule.OwedDay(2020, EarlyBirthday(x)) == Oct(EarlyCakeDay(EarlyBirthday(x).day))
  {
    var d := EarlyBirthday(x);
    assert d == Date(d.year, 10, d.day) && (d.day == 2 || d.day == 5 || d.day == 6 || d.day == 8);
    EarlyOwedDay(d.year, d.day);
  }

  /** The person owed cake on Oct(c). */
  function EarlyOneOf(c: int): string
  {
    if c == 5 then "Ann" else if c == 6 then "Ben" else if c == 7 then "Cat" else "Dan"
  }

  lemma EarlyOneEach()
    ensures EarlyOneOf(5) == "Ann" && EarlyOneOf(6) == "Ben" && EarlyOneOf(7) == "Cat" && EarlyOneOf(9) == "Dan"
  {
  }

  lemma EarlyTable()
    ensures OneKeyEach(EarlyInput(), EarlyPeople, EarlyBirthday)
  {
    EarlyIsInput();
    EarlyNames();
    forall x | x in EarlyPeople
      ensures Full(EarlyBirthday(x)) in EarlyInput().vals && EarlyInput().vals[Full(EarlyBirthday(x))] == [x]
    {
    }
  }

  lemma EarlyIsInput()
    ensures IsInput(EarlyInput())
  {
    assert Valid(EarlyInput());
  }

  /** Every key of the example holds one name, born on that date. */
  lemma EarlyNames()
    ensures forall k :: k in EarlyInput().vals ==>
      var x := EarlyInput().vals[k][0];
      && EarlyInput().vals[k] == [x] && x in EarlyPeople && k == Full(EarlyBirthday(x))
  {
    var b := EarlyInput();
    forall k | k in b.vals
      ensures var x := b.vals[k][0];
        && b.vals[k] == [x] && x in EarlyPeople && k == Full(EarlyBirthday(x))
    {
      var x := b.vals[k][0];
      assert x in EarlyPeople && k == Full(EarlyBirthday(x));
    }
  }

  /** Each person is owed cake on exactly one of the four days, and each
      day on exactly one person. */
  lemma EarlyDayOf(x: string, c: int)
    requires x in EarlyPeople && (c == 5 || c == 6 || c == 7 || c == 9)
    ensures Schedule.OwedDay(2020, EarlyBirthday(x)) == Oct(c) <==> x == EarlyOneOf(c)
  {
    EarlyOwedTable();
    EarlyOneEach();
    EarlyNamesDiffer();
    assert x == "Ann" || x == "Ben" || x == "Cat" || x == "Dan";
    var day := if x == "Ann" then 5 else if x == "Ben" then 6 else if x == "Cat" then 7 else 9;
    assert Schedule.OwedDay(2020, EarlyBirthday(x)) == Oct(day) && x == EarlyOneOf(day);
    assert x == EarlyOneOf(c) <==> day == c;
  }

  /** The four people have four different names. */
  lemma EarlyNamesDiffer()
    ensures "Ann" != "Ben" && "Ann" != "Cat" && "Ann" != "Dan"
    ensures "Ben" != "Cat" && "Ben" != "Dan" && "Cat" != "Dan"
  {
    assert "Ann"[0] == 'A' && "Ben"[0] == 'B' && "Cat"[0] == 'C' && "Dan"[0] == 'D';
  }

  /** Who is owed cake on which day. */
  lemma EarlyOwedTable()
    ensures EarlyBirthday("Ann") == Date(1990, 10, 2) && EarlyBirthday("Ben") == Date(1985, 10, 5)
    ensures EarlyBirthday("Cat") == Date(1977, 10, 6) && EarlyBirthday("Dan") == Date(1969, 10, 8)
    ensures Schedule.OwedDay(2020, EarlyBirthday("Ann")) == Oct(5)
    ensures Schedule.OwedDay(2020, EarlyBirthday("Ben")) == Oct(6)
    ensures Schedule.OwedDay(2020, EarlyBirthday("Cat")) == Oct(7)
    ensures Schedule.OwedDay(2020, EarlyBirthday("Dan")) == Oct(9)
  {
    EarlyOwed("Ann");
    EarlyOwed("Ben");
    EarlyOwed("Cat");
    EarlyOwed("Dan");
  }

  /** Each of the four days is owed to somebody. */
  lemma EarlyDayIn(b: BirthdayArray, c: int)
    requires OneKeyEach(b, EarlyPeople, EarlyBirthday) && (c == 5 || c == 6 || c == 7 || c == 9)
    ensures Oct(c) in Schedule.Built(2020, b).vals
  {
    var x := EarlyOneOf(c);
    EarlyDayOf(x, c);
    assert Full(EarlyBirthday(x)) in b.vals;
    Schedule.BuiltDays(2020, b, Oct(c));
  }

  /** No other day is. */
  lemma EarlyNotIn(b: BirthdayArray, d: Date)
    requires OneKeyEach(b, EarlyPeople, EarlyBirthday) && d !in EarlyDays
    ensures d !in Schedule.Built(2020, b).vals
  {
    Schedule.BuiltDays(2020, b, d);
    if k :| k in b.vals && Schedule.OwedDay(2020, k.date) == d {
      EarlyOwedIn(b.vals[k][0]);
    }
  }

  /** Everybody of the example is owed cake on one of the four days. */
  lemma EarlyOwedIn(x: string)
    requires x in EarlyPeople
    ensures Schedule.OwedDay(2020, EarlyBirthday(x)) in EarlyDays
  {
    EarlyOwed(x);
  }

  /** A day is a raw cake day of the example exactly when it is one of the
      four. */
  lemma EarlyBuiltDay(b: BirthdayArray, d: Date)
    requires OneKeyEach(b, EarlyPeople, EarlyBirthday)
    ensures d in Schedule.Built(2020, b).vals <==> d in EarlyDays
  {
    if d in EarlyDays {
      assert d == Oct(d.day) && (d.day == 5 || d.day == 6 || d.day == 7 || d.day == 9);
      EarlyDayIn(b, d.day);
    } else {
      EarlyNotIn(b, d);
    }
  }

  /** populateCakeDaysStack gives cake days on 5, 6, 7 and 9 October. */
  lemma EarlyBuiltKeys(b: BirthdayArray)
    requires OneKeyEach(b, EarlyPeople, EarlyBirthday)
    ensures Schedule.Built(2020, b).keys == EarlyDays
  {
    var st := Schedule.Built(2020, b);
    forall d ensures d in st.keys <==> d in EarlyDays {
      EarlyBuiltDay(b, d);
    }
    EarlyDaysInOrder();
    ChronologicalUnique(st.keys, EarlyDays);
  }

  lemma EarlyDaysInOrder()
    ensures Chronological(EarlyDays)
  {
  }

  /** Each of the four days holds the one person owed cake on it. */
  lemma EarlyBuiltNames(b: BirthdayArray, c: int, x: string)
    requires OneKeyEach(b, EarlyPeople, EarlyBirthday) && (c == 5 || c == 6 || c == 7 || c == 9)
    ensures Oct(c) in Schedule.Built(2020, b).vals
    ensures x in Schedule.Built(2020, b).vals[Oct(c)] <==> x == EarlyOneOf(c)
  {
    EarlyDayIn(b, c);
    OneKeyEachBuilt(2020, b, EarlyPeople, EarlyBirthday, Oct(c), x);
    if x in EarlyPeople {
      EarlyDayOf(x, c);
    }
  }

  /** The merge pass over any stack on the four days: 5 October folds
      into 6, and 7 and 9 stay, since 8 and 10 are no cake days. */
  lemma EarlyMergeStack(s: Stack)
    requires Valid(s) && s.keys == EarlyDays
    ensures Merge.Merge(s).keys == [Oct(6), Oct(7), Oct(9)]
    ensures var m := Merge.Merge(s).vals;
      && Oct(5) in s.vals && Oct(6) in s.vals && Oct(7) in s.vals && Oct(9) in s.vals
      && Oct(6) in m && Oct(7) in m && Oct(9) in m
      && m[Oct(6)] == SortedSet(s.vals[Oct(6)] + s.vals[Oct(5)])
      && m[Oct(7)] == s.vals[Oct(7)] && m[Oct(9)] == s.vals[Oct(9)]
  {
    EarlyMergeHead(s);
    EarlyMergeTail(s, Merge.MergeOne(s, 0, s));
  }

  /** The turn for 5 October folds it into 6 and raises the flag, which
      the turn for 6 lowers. */
  lemma EarlyMergeHead(s: Stack)
    requires Valid(s) && s.keys == EarlyDays
    ensures var l := Merge.MergeOne(s, 0, s);
      && Merge.Merge(s) == Merge.MergeFrom(s, 2, Walk(false, l)).stack
      && l.keys == [Oct(6), Oct(7), Oct(9)]
      && Oct(5) in s.vals && Oct(6) in s.vals && Oct(7) in s.vals && Oct(9) in s.vals
      && l.vals == s.vals[Oct(6) := SortedSet(s.vals[Oct(6)] + s.vals[Oct(5)])] - {Oct(5)}
  {
    FourKeys(s);
    assert Next(Oct(5)) == Oct(6);
    Merge.MergeTwoTurns(s, 0, s);
    EarlyFold(s);
  }

  /** The turn for 5 October on its own. */
  lemma EarlyFold(s: Stack)
    requires Valid(s) && s.keys == EarlyDays
    ensures var l := Merge.MergeOne(s, 0, s);
      && l.keys == [Oct(6), Oct(7), Oct(9)]
      && Oct(5) in s.vals && Oct(6) in s.vals
      && l.vals == s.vals[Oct(6) := SortedSet(s.vals[Oct(6)] + s.vals[Oct(5)])] - {Oct(5)}
  {
    FourKeys(s);
    assert Next(Oct(5)) == Oct(6);
    Merge.MergeStep(s, 0, s, [], [Oct(6), Oct(7), Oct(9)]);
  }

  /** The keys of a stack on the four raw cake days. */
  lemma FourKeys(s: Stack)
    requires Valid(s) && s.keys == EarlyDays
    ensures Oct(5) in s.vals && Oct(6) in s.vals && Oct(7) in s.vals && Oct(9) in s.vals
    ensures s.keys[0] in s.vals && s.keys[1] in s.vals && s.keys[2] in s.vals && s.keys[3] in s.vals
  {
    assert forall d :: d in s.vals <==> d in s.keys;
  }

  /** The turns for 7 and 9 October find no cake on the next day. */
  lemma EarlyMergeTail(s: Stack, l: Stack)
    requires Valid(s) && s.keys == EarlyDays
    requires Valid(l) && l.keys == [Oct(6), Oct(7), Oct(9)]
    ensures Merge.MergeFrom(s, 2, Walk(false, l)) == Walk(false, l)
  {
    assert s.keys[2] in s.vals && s.keys[3] in s.vals;
    assert Next(Oct(7)) == Oct(8) && Next(Oct(9)) == Oct(10);
    var w := Walk(false, l);
    assert Merge.MergeTurn(s, 2, w) == w;
    assert Merge.MergeTurn(s, 3, w) == w;
    assert Merge.MergeFrom(s, 4, w) == w;
  }

  /** tomorrowCakeTooCheckModiy folds Ann's 5 October into Ben's 6 and
      leaves Cat on 7 and Dan on 9. */
  lemma EarlyMerged(b: BirthdayArray)
    requires OneKeyEach(b, EarlyPeople, EarlyBirthday)
    ensures var m := Schedule.Merged(2020, b);
      && m.keys == [Oct(6), Oct(7), Oct(9)]
      && Oct(6) in m.vals && Oct(7) in m.vals && Oct(9) in m.vals
      && m.vals[Oct(6)] == ["Ann", "Ben"]
      && (forall x :: x in m.vals[Oct(7)] <==> x == "Cat")
      && (forall x :: x in m.vals[Oct(9)] <==> x == "Dan")
  {
    var st := Schedule.Built(2020, b);
    EarlyBuiltKeys(b);
    EarlyMergeStack(st);
    EarlyPair(b);
    EarlyOneEach();
    EarlyDayNames(b, 7);
    EarlyDayNames(b, 9);
  }

  /** Ann's and Ben's days merged hold the two of them, in order. */
  lemma EarlyPair(b: BirthdayArray)
    requires OneKeyEach(b, EarlyPeople, EarlyBirthday)
    ensures var st := Schedule.Built(2020, b).vals;
      Oct(5) in st && Oct(6) in st && SortedSet(st[Oct(6)] + st[Oct(5)]) == ["Ann", "Ben"]
  {
    var st := Schedule.Built(2020, b).vals;
    EarlyOneEach();
    EarlyDayNames(b, 5);
    EarlyDayNames(b, 6);
    AnnAndBen(st[Oct(5)], st[Oct(6)]);
  }

  /** The names on one of the four days: its one person. */
  lemma EarlyDayNames(b: BirthdayArray, c: int)
    requires OneKeyEach(b, EarlyPeople, EarlyBirthday) && (c == 5 || c == 6 || c == 7 || c == 9)
    ensures Oct(c) in Schedule.Built(2020, b).vals
    ensures forall x :: x in Schedule.Built(2020, b).vals[Oct(c)] <==> x == EarlyOneOf(c)
  {
    EarlyDayIn(b, c);
    forall x ensures x in Schedule.Built(2020, b).vals[Oct(c)] <==> x == EarlyOneOf(c) {
      EarlyBuiltNames(b, c, x);
    }
  }

  lemma AnnBenSorted()
    ensures Sorted(["Ann", "Ben"]) && Distinct(["Ann", "Ben"])
  {
    assert StrLe("Ann", "Ben");
  }

  lemma AnnAndBen(a: seq<string>, c: seq<string>)
    requires (forall x :: x in a <==> x == "Ann") && (forall x :: x in c <==> x == "Ben")
    ensures SortedSet(c + a) == ["Ann", "Ben"]
  {
    AnnBenSorted();
    PairSortedSet(a, c, "Ann", "Ben");
  }

  /** sort(array_unique(...)) of two lists holding one name each. */
  lemma PairSortedSet(a: seq<string>, c: seq<string>, p: string, q: string)
    requires (forall x :: x in a <==> x == p) && (forall x :: x in c <==> x == q)
    requires Sorted([p, q]) && Distinct([p, q])
    ensures SortedSet(c + a) == [p, q]
  {
    forall x ensures x in SortedSet(c + a) <==> x in [p, q] {
      assert x in c + a <==> x in c || x in a;
    }
    SortedSetUnique(SortedSet(c + a), [p, q]);
  }

  /** healthCheckModify as written over any stack on 6, 7 and 9 October:
      7 moves onto Thursday 8, and Friday 9 is skipped. */
  lemma EarlyAsWritten(hs: seq<Date>, m: Stack)
    requires NextWorkingDay(hs, Oct(7)) == Oct(8)
    requires Ordered(m) && m.keys == [Oct(6), Oct(7), Oct(9)]
    ensures var r := Health.HealthAsWritten(hs, m).vals;
      && Oct(6) in m.vals && Oct(7) in m.vals && Oct(9) in m.vals
      && r.Keys == {Oct(6), Oct(8), Oct(9)}
      && r[Oct(6)] == m.vals[Oct(6)] && r[Oct(9)] == m.vals[Oct(9)]
      && Elems(r[Oct(8)]) == Elems(m.vals[Oct(7)])
  {
    Health.OctoberAsWrittenStart(hs, m);
    Health.OctoberAsWrittenTail(hs, m, Health.HealthTurn(hs, m, 1, Walk(false, m)));
    EarlySeventh(hs, m);
  }

  /** The turn for 7 October, with 6 October a cake day, moves its names
      onto Thursday 8. */
  lemma EarlySeventh(hs: seq<Date>, m: Stack)
    requires NextWorkingDay(hs, Oct(7)) == Oct(8)
    requires Ordered(m) && m.keys == [Oct(6), Oct(7), Oct(9)]
    ensures var r := Health.HealthOne(hs, m, 1, m).vals;
      && Oct(6) in m.vals && Oct(7) in m.vals && Oct(9) in m.vals
      && r.Keys == {Oct(6), Oct(8), Oct(9)}
      && r[Oct(6)] == m.vals[Oct(6)] && r[Oct(9)] == m.vals[Oct(9)]
      && Elems(r[Oct(8)]) == Elems(m.vals[Oct(7)])
  {
    ThreeKeys(m);
    assert m.keys[1] == Oct(7) && Prev(Oct(7)) == Oct(6) && ValidDate(Oct(7));
    Health.HealthOneEffect(hs, m, 1, m);
    var t := Health.MovedNames(m, Oct(8), m.vals[Oct(7)]);
    var r := m.vals[Oct(8) := t] - {Oct(7)};
    assert Health.HealthOne(hs, m, 1, m).vals == r;
    assert Oct(8) !in m.vals && r[Oct(8)] == t;
    assert r.Keys == {Oct(6), Oct(8), Oct(9)};
  }

  /** The keys of a stack on 6, 7 and 9 October. */
  lemma ThreeKeys(m: Stack)
    requires Valid(m) && m.keys == [Oct(6), Oct(7), Oct(9)]
    ensures m.vals.Keys == {Oct(6), Oct(7), Oct(9)} && m.keys[1] in m.vals
  {
    assert forall d :: d in m.vals <==> d in m.keys;
  }

  /** The corrected pass over the same stack moves 9 October on as well,
      to Monday 12. */
  lemma EarlyCorrected(hs: seq<Date>, m: Stack)
    requires NextWorkingDay(hs, Oct(7)) == Oct(8) && NextWorkingDay(hs, Oct(9)) == Oct(12)
    requires Ordered(m) && m.keys == [Oct(6), Oct(7), Oct(9)]
    ensures var r := Health.Health(hs, m).vals;
      && Oct(6) in m.vals && Oct(7) in m.vals && Oct(9) in m.vals
      && r.Keys == {Oct(6), Oct(8), Oct(12)}
      && r[Oct(6)] == m.vals[Oct(6)]
      && Elems(r[Oct(8)]) == Elems(m.vals[Oct(7)]) && Elems(r[Oct(12)]) == Elems(m.vals[Oct(9)])
  {
    EarlyCorrectedTurns(hs, m);
    EarlySeventh(hs, m);
    EarlyNinth(hs, m, Health.HealthOne(hs, m, 1, m));
  }

  /** The turn for 9 October, with 8 October now a cake day, moves its
      names onto Monday 12. */
  lemma EarlyNinth(hs: seq<Date>, m: Stack, l: Stack)
    requires NextWorkingDay(hs, Oct(9)) == Oct(12)
    requires Ordered(m) && m.keys == [Oct(6), Oct(7), Oct(9)]
    requires l.vals.Keys == {Oct(6), Oct(8), Oct(9)}
    ensures var r := Health.HealthOne(hs, m, 2, l).vals;
      && Oct(9) in m.vals
      && r.Keys == {Oct(6), Oct(8), Oct(12)}
      && r[Oct(6)] == l.vals[Oct(6)] && r[Oct(8)] == l.vals[Oct(8)]
      && Elems(r[Oct(12)]) == Elems(m.vals[Oct(9)])
  {
    assert m.keys[2] in m.vals;
    assert Prev(Oct(9)) == Oct(8) && Oct(12) !in l.vals;
    Health.HealthOneEffect(hs, m, 2, l);
  }

  /** The corrected pass over that stack: the turn for 6 October changes
      nothing, and those for 7 and 9 October both move. */
  lemma EarlyCorrectedTurns(hs: seq<Date>, m: Stack)
    requires Ordered(m) && m.keys == [Oct(6), Oct(7), Oct(9)]
    ensures m.keys[0] in m.vals && m.keys[1] in m.vals && m.keys[2] in m.vals
    ensures Health.Health(hs, m) == Health.HealthOne(hs, m, 2, Health.HealthOne(hs, m, 1, m))
  {
    assert m.keys[0] in m.vals && m.keys[1] in m.vals && m.keys[2] in m.vals;
    assert Prev(Oct(6)) == Oct(5) && Oct(5) !in m.vals;
    assert Health.HealthOne(hs, m, 0, m) == m;
    var l := Health.HealthOne(hs, m, 1, m);
    var r := Health.HealthOne(hs, m, 2, l);
    calc {
      Health.Health(hs, m);
      Health.HealthFrom(hs, m, 1, m);
      Health.HealthFrom(hs, m, 2, l);
      Health.HealthFrom(hs, m, 3, r);
      r;
    }
  }

  /** The program's stack once healthCheckModify is done: Ann and Ben on
      6 October, Cat moved to Thursday 8, Dan left on Friday 9. */
  lemma EarlyChecked(b: BirthdayArray)
    requires OneKeyEach(b, EarlyPeople, EarlyBirthday)
    ensures var c := Schedule.Checked(2020, b).vals;
      && c.Keys == {Oct(6), Oct(8), Oct(9)}
      && c[Oct(6)] == ["Ann", "Ben"]
      && (forall x :: x in c[Oct(8)] <==> x == "Cat")
      && (forall x :: x in c[Oct(9)] <==> x == "Dan")
  {
    var m := Schedule.Merged(2020, b);
    EarlyMerged(b);
    EarlyNextWorkingDays();
    assert NextWorkingDay(Holidays(2020), Oct(7)) == Oct(8);
    EarlyAsWritten(Holidays(2020), m);
    var c := Schedule.Checked(2020, b).vals;
    forall x ensures x in c[Oct(8)] <==> x == "Cat" {
      assert x in c[Oct(8)] <==> x in Elems(c[Oct(8)]);
      assert x in m.vals[Oct(7)] <==> x in Elems(m.vals[Oct(7)]);
    }
  }

  /** The stack with the corrected pass: Dan moves on to Monday 12. */
  lemma EarlyCheckedCorrected(b: BirthdayArray)
    requires OneKeyEach(b, EarlyPeople, EarlyBirthday)
    ensures var c := Schedule.CheckedCorrected(2020, b).vals;
      && c.Keys == {Oct(6), Oct(8), Oct(12)}
      && c[Oct(6)] == ["Ann", "Ben"]
      && (forall x :: x in c[Oct(8)] <==> x == "Cat")
      && (forall x :: x in c[Oct(12)] <==> x == "Dan")
  {
    var m := Schedule.Merged(2020, b);
    EarlyMerged(b);
    EarlyNextWorkingDays();
    assert NextWorkingDay(Holidays(2020), Oct(7)) == Oct(8);
    EarlyCorrected(Holidays(2020), m);
    var c := Schedule.CheckedCorrected(2020, b).vals;
    forall x ensures (x in c[Oct(8)] <==> x == "Cat") && (x in c[Oct(12)] <==> x == "Dan") {
      assert x in c[Oct(8)] <==> x in Elems(c[Oct(8)]);
      assert x in m.vals[Oct(7)] <==> x in Elems(m.vals[Oct(7)]);
      assert x in c[Oct(12)] <==> x in Elems(c[Oct(12)]);
      assert x in m.vals[Oct(9)] <==> x in Elems(m.vals[Oct(9)]);
    }
  }

  /** getCakeDays as written: a large cake on 6 October, then small ones on
      Thursday 8 and Friday 9 October, two cake days in a row. */
  lemma EarlyRows(b: BirthdayArray)
    requires OneKeyEach(b, EarlyPeople, EarlyBirthday)
    ensures var rows := Schedule.CakeDays(2020, b);
      && |rows| == 3
      && rows[0] == CakeDayRow(Oct(6), 0, 1, ["Ann", "Ben"])
      && rows[1].date == Oct(8) && (forall x :: x in rows[1].names <==> x == "Cat")
      && rows[2].date == Oct(9) && (forall x :: x in rows[2].names <==> x == "Dan")
      && rows[2].date == Next(rows[1].date)
  {
    EarlyChecked(b);
    var f := Schedule.Final(2020, b);
    SortThree(Schedule.Checked(2020, b), Oct(6), Oct(8), Oct(9));
    EarlyExport(f, Oct(9));
    assert Next(Oct(8)) == Oct(9);
  }

  /** The export with the corrected pass: Dan's cake waits for Monday 12. */
  lemma EarlyRowsCorrected(b: BirthdayArray)
    requires OneKeyEach(b, EarlyPeople, EarlyBirthday)
    ensures var rows := Schedule.CakeDaysCorrected(2020, b);
      && |rows| == 3
      && rows[0] == CakeDayRow(Oct(6), 0, 1, ["Ann", "Ben"])
      && rows[1].date == Oct(8) && (forall x :: x in rows[1].names <==> x == "Cat")
      && rows[2].date == Oct(12) && (forall x :: x in rows[2].names <==> x == "Dan")
  {
    EarlyCheckedCorrected(b);
    var f := Schedule.FinalCorrected(2020, b);
    SortThree(Schedule.CheckedCorrected(2020, b), Oct(6), Oct(8), Oct(12));
    EarlyExport(f, Oct(12));
  }

  /** prepareExport on Ann and Ben's day, Cat's and Dan's. */
  lemma EarlyExport(f: Stack, last: Date)
    requires f.keys == [Oct(6), Oct(8), last] && Oct(6) in f.vals && Oct(8) in f.vals && last in f.vals
    requires f.vals[Oct(6)] == ["Ann", "Ben"]
    requires (forall x :: x in f.vals[Oct(8)] <==> x == "Cat") && (forall x :: x in f.vals[last] <==> x == "Dan")
    ensures var rows := ExportRows(f.keys, f.vals);
      && |rows| == 3
      && rows[0] == CakeDayRow(Oct(6), 0, 1, ["Ann", "Ben"])
      && rows[1].date == Oct(8) && (forall x :: x in rows[1].names <==> x == "Cat")
      && rows[2].date == last && (forall x :: x in rows[2].names <==> x == "Dan")
  {
    var rows := ExportRows(f.keys, f.vals);
    assert rows[0] == Entry(Oct(6), f.vals[Oct(6)]);
    assert rows[1] == Entry(Oct(8), f.vals[Oct(8)]);
    assert rows[2] == Entry(last, f.vals[last]);
  }

  /** Birthdays on 2, 5, 6 and 8 October: the program leaves cake days on
      8 and 9 October, where the corrected pass moves 9 to 12 October. */
  lemma EarlyOctober()
    ensures IsInput(EarlyInput())
    ensures var rows := Schedule.CakeDays(2020, EarlyInput());
      |rows| == 3 && rows[0].date == Oct(6) && rows[1].date == Oct(8) && rows[2].date == Oct(9)
    ensures var rows := Schedule.CakeDaysCorrected(2020, EarlyInput());
      |rows| == 3 && rows[0].date == Oct(6) && rows[1].date == Oct(8) && rows[2].date == Oct(12)
  {
    EarlyTable();
    EarlyRows(EarlyInput());
    EarlyRowsCorrected(EarlyInput());
  }

  /** ksort on three valid days puts them in calendar order. */
  lemma SortThree(c: Stack, x: Date, y: Date, z: Date)
    requires Valid(c) && ValidDate(x) && ValidDate(y) && ValidDate(z)
    requires c.vals.Keys == {x, y, z} && Ord(x) < Ord(y) < Ord(z)
    ensures KSort(c, Ord).keys == [x, y, z]
  {
    assert forall d :: d in c.vals ==> ValidDate(d);
    KSortStack(c);
    var r := KSort(c, Ord);
    var t := [x, y, z];
    ThreeInOrder(x, y, z);
    forall d ensures d in r.keys <==> d in t {
      assert d in r.keys <==> d in r.vals;
    }
    ChronologicalUnique(r.keys, t);
  }

  lemma ThreeInOrder(x: Date, y: Date, z: Date)
    requires Ord(x) < Ord(y) < Ord(z)
    ensures Chronological([x, y, z])
  {
  }
}
