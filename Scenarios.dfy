/**
 Concrete 2020 schedules: the cake days the engine's own test suite
 expects, worked out in the model.  2020 is a leap year; 1 January 2020 is a
 Wednesday.
 */
module Scenarios {
  import opened Calendar
  import opened WorkingDays
  import opened Names
  import opened PhpArray
  import opened Birthdays
  import opened CakeStack
  import Merge
  import Health
  import opened Export
  import opened Sequences
  import Schedule

  /** The office is open on the day after d: that is d's next working day. */
  lemma OpenNext(hs: seq<Date>, d: Date)
    requires ValidDate(d) && IsWorkingDay(hs, Next(d))
    ensures NextWorkingDay(hs, d) == Next(d)
  {
  }

  /** The office is closed on the day after d: d and that day share their
      next working day. */
  lemma ClosedNext(hs: seq<Date>, d: Date)
    requires ValidDate(d) && !IsWorkingDay(hs, Next(d))
    ensures NextWorkingDay(hs, d) == NextWorkingDay(hs, Next(d))
  {
  }

  /** The day of the week of a date in 2020, from its day of the year. */
  lemma Weekday2020(m: int, d: int)
    ensures DayOfWeek(Date(2020, m, d)) == (737424 + DaysBeforeMonth(2020, m) + d - 1) % 7
  {
    assert DaysBeforeYear(2020) == 737424;
  }

  /** Friday 25 December 2020 to Tuesday 29 December. */
  lemma ChristmasWeek()
    ensures !IsWorkingDay(Holidays(2020), Date(2020, 12, 25))
    ensures !IsWorkingDay(Holidays(2020), Date(2020, 12, 26))
    ensures !IsWorkingDay(Holidays(2020), Date(2020, 12, 27))
    ensures IsWorkingDay(Holidays(2020), Date(2020, 12, 28))
    ensures IsWorkingDay(Holidays(2020), Date(2020, 12, 29))
  {
    Weekday2020(12, 27);
    Weekday2020(12, 28);
    Weekday2020(12, 29);
  }

  /** A birthday on Christmas Day, a Friday: the office is closed from
      Friday 25 to Sunday 27, so the day off is Monday 28 and the cake comes
      on Tuesday 29 December. */
  lemma ChristmasCakeDay()
    ensures CakeDay(Holidays(2020), Date(2020, 12, 25)) == Date(2020, 12, 29)
  {
    var hs := Holidays(2020);
    ChristmasWeek();
    ClosedNext(hs, Date(2020, 12, 25));
    ClosedNext(hs, Date(2020, 12, 26));
    OpenNext(hs, Date(2020, 12, 27));
    OpenNext(hs, Date(2020, 12, 28));
  }

  /** Saturday 29 February 2020 to Tuesday 3 March. */
  lemma LeapWeekend()
    ensures !IsWorkingDay(Holidays(2020), Date(2020, 2, 29))
    ensures !IsWorkingDay(Holidays(2020), Date(2020, 3, 1))
    ensures IsWorkingDay(Holidays(2020), Date(2020, 3, 2))
    ensures IsWorkingDay(Holidays(2020), Date(2020, 3, 3))
  {
    Weekday2020(2, 29);
    Weekday2020(3, 1);
    Weekday2020(3, 2);
    Weekday2020(3, 3);
  }

  /** 29 February 2020 is a Saturday and 1 March a Sunday: both birthdays
      get Monday 2 March off and cake on Tuesday 3 March, so the two lists
      share one cake day. */
  lemma LeapDayCakeDays()
    ensures ValidDate(Date(2020, 2, 29)) && ValidDate(Date(2020, 3, 1))
    ensures CakeDay(Holidays(2020), Date(2020, 2, 29)) == Date(2020, 3, 3)
    ensures CakeDay(Holidays(2020), Date(2020, 3, 1)) == Date(2020, 3, 3)
  {
    var hs := Holidays(2020);
    LeapWeekend();
    ClosedNext(hs, Date(2020, 2, 29));
    OpenNext(hs, Date(2020, 3, 1));
    OpenNext(hs, Date(2020, 3, 2));
  }

  /** Monday 12 October 2020 to Tuesday 20 October. */
  lemma OctoberWeek()
    ensures forall d :: 12 <= d <= 16 || d == 19 || d == 20 ==> IsWorkingDay(Holidays(2020), Date(2020, 10, d))
    ensures !IsWorkingDay(Holidays(2020), Date(2020, 10, 17)) && !IsWorkingDay(Holidays(2020), Date(2020, 10, 18))
  {
    forall d | 12 <= d <= 20 ensures DayOfWeek(Date(2020, 10, d)) == (d - 12) % 7 {
      Weekday2020(10, d);
    }
  }

  /** The week of 12 October 2020: a birthday from Monday to Thursday has
      its cake the next day, Friday's waits for Monday 19, and the weekend
      birthdays get Monday off and cake on Tuesday 20. */
  lemma OctoberCakeDays()
    ensures forall d :: 12 <= d <= 15 ==> CakeDay(Holidays(2020), Date(2020, 10, d)) == Date(2020, 10, d + 1)
    ensures CakeDay(Holidays(2020), Date(2020, 10, 16)) == Date(2020, 10, 19)
    ensures CakeDay(Holidays(2020), Date(2020, 10, 17)) == Date(2020, 10, 20)
    ensures CakeDay(Holidays(2020), Date(2020, 10, 18)) == Date(2020, 10, 20)
  {
    var hs := Holidays(2020);
    OctoberWeek();
    forall d | 12 <= d <= 15 ensures CakeDay(hs, Date(2020, 10, d)) == Date(2020, 10, d + 1) {
      OpenNext(hs, Date(2020, 10, d));
    }
    ClosedNext(hs, Date(2020, 10, 16));
    ClosedNext(hs, Date(2020, 10, 17));
    OpenNext(hs, Date(2020, 10, 18));
    OpenNext(hs, Date(2020, 10, 19));
  }

  /** A stack with one cake day and no cake on the next calendar day is
      left as it is by the merge pass. */
  lemma MergeSingle(st: Stack)
    requires Valid(st) && |st.keys| == 1 && Next(st.keys[0]) !in st.vals
    ensures Merge.Merge(st) == st
  {
    var w := Walk(false, st);
    assert Merge.MergeOne(st, 0, st) == st;
    assert Merge.MergeTurn(st, 0, w) == w;
    assert Merge.MergeFrom(st, 1, w) == w;
  }

  /** A stack with one valid cake day and no cake on the calendar day
      before it is left as it is by the health pass. */
  lemma HealthSingle(hs: seq<Date>, st: Stack)
    requires Valid(st) && |st.keys| == 1 && ValidDate(st.keys[0]) && Prev(st.keys[0]) !in st.vals
    ensures Ordered(st) && Health.HealthAsWritten(hs, st) == st
  {
    var w := Walk(false, st);
    assert Health.HealthOne(hs, st, 0, st) == st;
    assert Health.HealthTurn(hs, st, 0, w) == w;
    assert Health.HealthFromAsWritten(hs, st, 1, w) == w;
  }

  /** When every birthday lands on the same cake day, neither pass changes
      the stack, and the export array is that one day's entry. */
  lemma OneCakeDay(year: int, b: BirthdayArray, day: Date, names: seq<string>)
    requires IsInput(b) && Schedule.Built(year, b) == PArray([day], map[day := names])
    ensures Schedule.CakeDays(year, b) == [Entry(day, names)]
  {
    var st := PArray([day], map[day := names]);
    assert day in st.vals;
    assert Next(day) != day && Prev(day) != day;
    MergeSingle(st);
    assert Schedule.Merged(year, b) == st;
    HealthSingle(Holidays(year), st);
    assert Schedule.Checked(year, b) == st;
    assert SortByRank(st.keys, Ord) == st.keys;
    assert Schedule.Final(year, b) == st;
  }

  // ---------------------------------------------------------------------
  // One birthday on Christmas Day.

  /** One birthday, on Christmas Day 1979: the 2020 schedule is a single
      small cake on Tuesday 29 December. */
  lemma ChristmasSchedule()
    ensures var k := Full(Date(1979, 12, 25));
      Schedule.CakeDays(2020, PArray([k], map[k := ["Andrew"]])) == [CakeDayRow(Date(2020, 12, 29), 1, 0, ["Andrew"])]
  {
    var k := Full(Date(1979, 12, 25));
    ChristmasBuilt();
    OneCakeDay(2020, PArray([k], map[k := ["Andrew"]]), Date(2020, 12, 29), ["Andrew"]);
  }

  lemma ChristmasBuilt()
    ensures var k := Full(Date(1979, 12, 25)); var day := Date(2020, 12, 29);
      && IsInput(PArray([k], map[k := ["Andrew"]]))
      && Schedule.Built(2020, PArray([k], map[k := ["Andrew"]])) == PArray([day], map[day := ["Andrew"]])
  {
    ChristmasPrepared();
    ChristmasStack();
  }

  lemma ChristmasPrepared()
    ensures var k := Full(Date(1979, 12, 25));
      && IsInput(PArray([k], map[k := ["Andrew"]]))
      && Schedule.Prepared(2020, PArray([k], map[k := ["Andrew"]])) == PArray([MonthDay(12, 25)], map[MonthDay(12, 25) := ["Andrew"]])
  {
    var k := Full(Date(1979, 12, 25));
    var b := PArray([k], map[k := ["Andrew"]]);
    var md := MonthDay(12, 25);
    var one := PArray([md], map[md := ["Andrew"]]);
    assert IsInput(b);
    var pushed := PArray([k, md], map[k := ["Andrew"], md := ["Andrew"]]);
    assert PushNames(b, md, ["Andrew"]) == PushNames(pushed, md, []) == pushed;
    assert SortNames(["Andrew"]) == ["Andrew"];
    assert Without([k, md], k) == [md];
    assert StripOne(b, 0, b) == one;
    assert StripYears(b) == StripFrom(b, 1, one) == one;
    assert LeapFix(one, 2020) == one;
    assert SortByRank(one.keys, KeyRank) == one.keys;
  }

  lemma ChristmasStack()
    ensures var md := MonthDay(12, 25); var day := Date(2020, 12, 29);
      && IsReady(PArray([md], map[md := ["Andrew"]]), 2020)
      && Populate(Holidays(2020), 2020, PArray([md], map[md := ["Andrew"]])) == PArray([day], map[day := ["Andrew"]])
  {
    var md := MonthDay(12, 25);
    var one := PArray([md], map[md := ["Andrew"]]);
    var day := Date(2020, 12, 29);
    var st := PArray([day], map[day := ["Andrew"]]);
    var hs := Holidays(2020);
    assert IsReady(one, 2020);
    ChristmasCakeDay();
    assert PopulateOne(hs, 2020, one, 0, Empty()) == st;
    assert PopulateFrom(hs, 2020, one, 1, st) == st;
  }
  // ---------------------------------------------------------------------
  // Two 29 February birthdays, one of them in a year without that day, and
  // a 1 March birthday.

  /** The birthdays array of the leap-year test: the class takes the key
      "1979-02-29" although 1979 has no 29 February. */
  function LeapInput(): BirthdayArray
  {
    PArray([Full(Date(1979, 2, 29)), Full(Date(1988, 2, 29)), Full(Date(1980, 3, 1))],
      map[Full(Date(1979, 2, 29)) := ["Andrew"], Full(Date(1988, 2, 29)) := ["Elizabeth"],
          Full(Date(1980, 3, 1)) := ["Dave"]])
  }

  /** testLeapYear: in 2020, Andrew (1979-02-29), Elizabeth (1988-02-29)
      and Dave (1980-03-01) share one large cake on Tuesday 3 March. */
  lemma LeapYearSchedule()
    ensures IsInput(LeapInput()) && !ValidDate(Date(1979, 2, 29))
    ensures Schedule.CakeDays(2020, LeapInput()) == [CakeDayRow(Date(2020, 3, 3), 0, 1, ["Andrew", "Dave", "Elizabeth"])]
  {
    LeapIsInput();
    NoLeapDay1979();
    LeapEntry(LeapInput());
    LeapRow(["Andrew", "Dave", "Elizabeth"]);
  }

  /** 1979 is not a leap year. */
  lemma NoLeapDay1979()
    ensures !ValidDate(Date(1979, 2, 29))
  {
    assert !IsLeapYear(1979);
  }

  /** The entry of 3 March 2020 for three names is one large cake. */
  lemma LeapRow(names: seq<string>)
    requires |names| == 3
    ensures Entry(Date(2020, 3, 3), names) == CakeDayRow(Date(2020, 3, 3), 0, 1, names)
  {
  }

  /** The same schedule, as the export entry of the shared day. */
  lemma LeapEntry(b: BirthdayArray)
    requires b == LeapInput()
    ensures IsInput(b)
    ensures Schedule.CakeDays(2020, b) == [Entry(Date(2020, 3, 3), ["Andrew", "Dave", "Elizabeth"])]
  {
    LeapIsInput();
    LeapShape(b);
    LeapCalendar();
    LeapNamesSorted();
    ThreeOnOneDay(2020, b, b.keys[0], b.keys[1], b.keys[2], ["Andrew"], ["Elizabeth"], ["Dave"], Feb29, Mar1, Date(2020, 3, 3));
  }

  /** The keys of the leap-year input: two on 29 February, then 1 March. */
  lemma LeapShape(b: BirthdayArray)
    requires b == LeapInput()
    ensures |b.keys| == 3 && b.vals == map[b.keys[0] := ["Andrew"], b.keys[1] := ["Elizabeth"], b.keys[2] := ["Dave"]]
    ensures b.keys == [b.keys[0], b.keys[1], b.keys[2]] && b.keys[0] != b.keys[1]
    ensures b.keys[0].Full? && b.keys[1].Full? && b.keys[2].Full?
    ensures StripYear(b.keys[0].date) == Feb29 && StripYear(b.keys[1].date) == Feb29 && StripYear(b.keys[2].date) == Mar1
  {
  }

  /** 2020 is a leap year, and 29 February and 1 March share their cake day. */
  lemma LeapCalendar()
    ensures IsLeapYear(2020) && KeyRank(Feb29) < KeyRank(Mar1) && Feb29.MonthDay? && Mar1.MonthDay?
    ensures ValidDate(InYear(2020, Feb29)) && CakeDay(Holidays(2020), InYear(2020, Feb29)) == Date(2020, 3, 3)
    ensures ValidDate(InYear(2020, Mar1)) && CakeDay(Holidays(2020), InYear(2020, Mar1)) == Date(2020, 3, 3)
  {
    LeapDayCakeDays();
    var f, m := InYear(2020, Feb29), InYear(2020, Mar1);
    assert f == Date(2020, 2, 29) && m == Date(2020, 3, 1);
  }

  /** Every key of the leap-year input makes a month-day with names. */
  lemma LeapIsInput()
    ensures IsInput(LeapInput())
  {
  }

  /** The three names sorted as the engine gathers them. */
  lemma LeapNamesSorted()
    ensures SortNames(SortNames(["Andrew"] + ["Elizabeth"]) + SortNames(["Dave"])) == ["Andrew", "Dave", "Elizabeth"]
  {
    assert ["Andrew"] + ["Elizabeth"] == ["Andrew", "Elizabeth"];
    LeapPairSorted();
    SortOne("Dave");
    assert ["Andrew", "Elizabeth"] + ["Dave"] == ["Andrew", "Elizabeth", "Dave"];
    LeapThreeSorted();
  }

  /** A single name is already sorted. */
  lemma SortOne(x: string)
    ensures SortNames([x]) == [x]
  {
    assert [x][1..] == [];
  }

  lemma LeapPairSorted()
    ensures SortNames(["Andrew", "Elizabeth"]) == ["Andrew", "Elizabeth"]
  {
  }

  lemma LeapThreeSorted()
    ensures SortNames(["Andrew", "Elizabeth", "Dave"]) == ["Andrew", "Dave", "Elizabeth"]
  {
    SortOne("Dave");
    assert ["Elizabeth", "Dave"][1..] == ["Dave"];
    assert SortNames(["Elizabeth", "Dave"]) == Insert("Elizabeth", ["Dave"]) == ["Dave", "Elizabeth"];
    assert ["Andrew", "Elizabeth", "Dave"][1..] == ["Elizabeth", "Dave"];
    assert Insert("Andrew", ["Dave", "Elizabeth"]) == ["Andrew", "Dave", "Elizabeth"];
  }

  /** Two birth dates on month-day f and one on m, in a leap year where f
      and m share their cake day: the schedule is that one day, holding the
      names of f sorted, then those of m, sorted together. */
  lemma ThreeOnOneDay(year: int, b: BirthdayArray, k1: BKey, k2: BKey, k3: BKey,
                      x: seq<string>, y: seq<string>, z: seq<string>, f: BKey, m: BKey, day: Date)
    requires IsInput(b) && b.keys == [k1, k2, k3] && b.vals == map[k1 := x, k2 := y, k3 := z] && k1 != k2
    requires StripYear(k1.date) == f && StripYear(k2.date) == f && StripYear(k3.date) == m
    requires IsLeapYear(year) && KeyRank(f) < KeyRank(m)
    requires ValidDate(InYear(year, f)) && CakeDay(Holidays(year), InYear(year, f)) == day
    requires ValidDate(InYear(year, m)) && CakeDay(Holidays(year), InYear(year, m)) == day
    ensures Schedule.CakeDays(year, b) == [Entry(day, SortNames(SortNames(x + y) + SortNames(z)))]
  {
    StripThree(b, k1, k2, k3, x, y, z, f, m);
    PreparedTwo(year, b, SortNames(x + y), SortNames(z), f, m);
    BuiltOne(year, b, SortNames(x + y), SortNames(z), f, m, day);
    OneCakeDay(year, b, day, SortNames(SortNames(x + y) + SortNames(z)));
  }

  /** removeBirthdayYears on three birth dates, the first two on month-day
      f and the last on m. */
  lemma StripThree(b: BirthdayArray, k1: BKey, k2: BKey, k3: BKey,
                   x: seq<string>, y: seq<string>, z: seq<string>, f: BKey, m: BKey)
    requires IsInput(b) && b.keys == [k1, k2, k3] && b.vals == map[k1 := x, k2 := y, k3 := z] && k1 != k2
    requires StripYear(k1.date) == f && StripYear(k2.date) == f && StripYear(k3.date) == m && f != m
    ensures StripYears(b).vals == map[f := SortNames(x + y), m := SortNames(z)]
  {
    StripYearsSpec(b);
    GatheredThree(StripYears(b).vals, b.keys, b.vals, k1, k2, k3, x, y, z, f, m);
  }

  /** A map holding exactly what the year-stripping pass gathers from the
      three birth dates. */
  lemma GatheredThree(r: map<BKey, seq<string>>, keys: seq<BKey>, vals: map<BKey, seq<string>>,
                      k1: BKey, k2: BKey, k3: BKey, x: seq<string>, y: seq<string>, z: seq<string>, f: BKey, m: BKey)
    requires keys == [k1, k2, k3] && k1.Full? && k2.Full? && k3.Full? && k1 != k2
    requires vals == map[k1 := x, k2 := y, k3 := z]
    requires StripYear(k1.date) == f && StripYear(k2.date) == f && StripYear(k3.date) == m && f != m
    requires forall k :: k in r <==> k in MonthDaysOf(keys)
    requires forall k :: k in r ==> r[k] == SortNames(NamesUnder(keys, vals, k))
    ensures r == map[f := SortNames(x + y), m := SortNames(z)]
  {
    MonthDaysThree(k1, k2, k3);
    assert r.Keys == {f, m};
    NamesUnderPair(keys, vals, k1, k2, k3, x, y, z, f, m);
    assert r[f] == SortNames(x + y) && r[m] == SortNames(z);
    MapOfTwo(r, f, m);
  }

  /** The names gathered under f and under m. */
  lemma NamesUnderPair(keys: seq<BKey>, vals: map<BKey, seq<string>>,
                       k1: BKey, k2: BKey, k3: BKey, x: seq<string>, y: seq<string>, z: seq<string>, f: BKey, m: BKey)
    requires keys == [k1, k2, k3] && k1.Full? && k2.Full? && k3.Full? && k1 != k2
    requires vals == map[k1 := x, k2 := y, k3 := z]
    requires StripYear(k1.date) == f && StripYear(k2.date) == f && StripYear(k3.date) == m && f != m
    ensures NamesUnder(keys, vals, f) == x + y && NamesUnder(keys, vals, m) == z
  {
    assert k1 != k3 && k2 != k3;
    assert vals[k1] == x && vals[k2] == y && vals[k3] == z;
    NamesUnderThree(k1, k2, k3, vals, f);
    assert NamesUnder(keys, vals, f) == x + y + [];
    NamesUnderThree(k1, k2, k3, vals, m);
    assert NamesUnder(keys, vals, m) == [] + [] + z;
  }

  /** A map with two keys is the display of its two entries. */
  lemma MapOfTwo<K, V>(r: map<K, V>, a: K, c: K)
    requires r.Keys == {a, c}
    ensures r == map[a := r[a], c := r[c]]
  {
  }

  /** A map with one key is the display of its entry. */
  lemma MapOfOne<K, V>(r: map<K, V>, a: K)
    requires r.Keys == {a}
    ensures r == map[a := r[a]]
  {
  }

  /** The month-days of three birth dates. */
  lemma MonthDaysThree(k1: BKey, k2: BKey, k3: BKey)
    requires k1.Full? && k2.Full? && k3.Full?
    ensures MonthDaysOf([k1, k2, k3]) == {StripYear(k1.date), StripYear(k2.date), StripYear(k3.date)}
  {
  }

  /** The names gathered under md from three full-date keys. */
  lemma NamesUnderThree(k1: BKey, k2: BKey, k3: BKey, vals: map<BKey, seq<string>>, md: BKey)
    requires k1.Full? && k2.Full? && k3.Full? && k1 in vals && k2 in vals && k3 in vals
    ensures NamesUnder([k1, k2, k3], vals, md) ==
      (if StripYear(k1.date) == md then vals[k1] else []) + (if StripYear(k2.date) == md then vals[k2] else [])
        + (if StripYear(k3.date) == md then vals[k3] else [])
  {
    var a := if StripYear(k1.date) == md then vals[k1] else [];
    var c := if StripYear(k2.date) == md then vals[k2] else [];
    var e := if StripYear(k3.date) == md then vals[k3] else [];
    assert [k1, k2, k3][..2] == [k1, k2];
    assert [k1, k2][..1] == [k1];
    assert [k1][..0] == [];
    assert NamesUnder([k1], vals, md) == [] + a == a;
    assert NamesUnder([k1, k2], vals, md) == a + c;
  }

  /** In a leap year, a stripped array holding month-days f and m is
      prepared as those two keys in day order. */
  lemma PreparedTwo(year: int, b: BirthdayArray, x: seq<string>, z: seq<string>, f: BKey, m: BKey)
    requires IsInput(b) && IsLeapYear(year) && StripYears(b).vals == map[f := x, m := z]
    requires KeyRank(f) < KeyRank(m)
    ensures Schedule.Prepared(year, b) == PArray([f, m], map[f := x, m := z])
  {
    PreparedInLeapYear(year, b);
    StripYearsSpec(b);
    SortedTwo(StripYears(b), x, z, f, m);
  }

  /** In a leap year the 29 February fix leaves the stripped array alone. */
  lemma PreparedInLeapYear(year: int, b: BirthdayArray)
    requires IsInput(b) && IsLeapYear(year)
    ensures IsStripped(StripYears(b))
    ensures Schedule.Prepared(year, b) == KSort(StripYears(b), KeyRank)
  {
    StripYearsSpec(b);
    LeapFixSpec(StripYears(b), year);
  }

  /** ksort on a stripped array holding exactly f and m. */
  lemma SortedTwo(s: BirthdayArray, x: seq<string>, z: seq<string>, f: BKey, m: BKey)
    requires IsStripped(s) && s.vals == map[f := x, m := z] && KeyRank(f) < KeyRank(m)
    ensures KSort(s, KeyRank) == PArray([f, m], map[f := x, m := z])
  {
    SortBirthdaysSpec(s);
    var p := KSort(s, KeyRank);
    forall k ensures k in p.keys <==> k == f || k == m {
      assert k in p.keys <==> k in p.vals;
    }
    TwoInDayOrder(p.keys, f, m);
  }

  /** Month-day keys in day order that are exactly f and m. */
  lemma TwoInDayOrder(keys: seq<BKey>, f: BKey, m: BKey)
    requires InDayOrder(keys) && KeyRank(f) < KeyRank(m) && forall k :: k in keys <==> k == f || k == m
    ensures keys == [f, m]
  {
    forall i, j | 0 <= i < j < |keys| ensures keys[i] != keys[j] {
      assert KeyRank(keys[i]) < KeyRank(keys[j]);
    }
    assert Distinct(keys);
    forall v ensures multiset(keys)[v] == multiset{f, m}[v] {
      DistinctCount(keys, v);
    }
    assert multiset(keys) == multiset{f, m};
    assert |keys| == |multiset(keys)| == 2;
    assert keys[0] in keys && keys[1] in keys;
    assert KeyRank(keys[0]) < KeyRank(keys[1]);
  }

  /** populateCakeDaysStack when f and m share their cake day: one day,
      holding both lists sorted together. */
  lemma BuiltOne(year: int, b: BirthdayArray, x: seq<string>, z: seq<string>, f: BKey, m: BKey, day: Date)
    requires IsInput(b) && Schedule.Prepared(year, b) == PArray([f, m], map[f := x, m := z])
    requires f.MonthDay? && m.MonthDay? && f != m
    requires ValidDate(InYear(year, f)) && CakeDay(Holidays(year), InYear(year, f)) == day
    requires ValidDate(InYear(year, m)) && CakeDay(Holidays(year), InYear(year, m)) == day
    ensures Schedule.Built(year, b) == PArray([day], map[day := SortNames(x + z)])
  {
    PopulatedTwo(Holidays(year), year, Schedule.Prepared(year, b), x, z, f, m, day);
  }

  /** The stack populated from month-days f and m that share their cake day. */
  lemma PopulatedTwo(hs: seq<Date>, year: int, p: BirthdayArray, x: seq<string>, z: seq<string>, f: BKey, m: BKey, day: Date)
    requires IsReady(p, year) && InDayOrder(p.keys) && p == PArray([f, m], map[f := x, m := z])
    requires f.MonthDay? && m.MonthDay? && f != m
    requires ValidDate(InYear(year, f)) && CakeDay(hs, InYear(year, f)) == day
    requires ValidDate(InYear(year, m)) && CakeDay(hs, InYear(year, m)) == day
    ensures Populate(hs, year, p) == PArray([day], map[day := SortNames(x + z)])
  {
    var st := Populate(hs, year, p);
    PopulateSpec(hs, year, p);
    assert p.vals[f] == x;
    PairCakeNames(hs, year, p.vals, f, m, x, z, day);
    assert st.vals[day] == SortNames(x + z);
    assert st.vals.Keys == {day};
    MapOfOne(st.vals, day);
    ChronologicalUnique(st.keys, [day]);
  }

  /** The names owed cake on each day by month-days f and m that share
      their cake day. */
  lemma PairCakeNames(hs: seq<Date>, year: int, vals: map<BKey, seq<string>>, f: BKey, m: BKey,
                       x: seq<string>, z: seq<string>, day: Date)
    requires vals == map[f := x, m := z] && f.MonthDay? && m.MonthDay? && f != m && |x| > 0
    requires ValidDate(InYear(year, f)) && CakeDay(hs, InYear(year, f)) == day
    requires ValidDate(InYear(year, m)) && CakeDay(hs, InYear(year, m)) == day
    ensures forall d :: CakeNames(hs, year, [f, m], vals, d) != [] <==> d == day
    ensures CakeNames(hs, year, [f, m], vals, day) == x + z
  {
    forall d ensures CakeNames(hs, year, [f, m], vals, d) != [] <==> d == day {
      CakeNamesTwo(hs, year, vals, f, m, d);
    }
    CakeNamesTwo(hs, year, vals, f, m, day);
  }

  /** The names owed cake on d from two month-day keys. */
  lemma CakeNamesTwo(hs: seq<Date>, year: int, vals: map<BKey, seq<string>>, k1: BKey, k2: BKey, d: Date)
    ensures CakeNames(hs, year, [k1, k2], vals, d) ==
      (if k1.MonthDay? && k1 in vals && ValidDate(InYear(year, k1)) && CakeDay(hs, InYear(year, k1)) == d then vals[k1] else [])
        + (if k2.MonthDay? && k2 in vals && ValidDate(InYear(year, k2)) && CakeDay(hs, InYear(year, k2)) == d then vals[k2] else [])
  {
    var a := if k1.MonthDay? && k1 in vals && ValidDate(InYear(year, k1)) && CakeDay(hs, InYear(year, k1)) == d then vals[k1] else [];
    assert [k1, k2][..1] == [k1];
    assert [k1][..0] == [];
    assert CakeNames(hs, year, [k1], vals, d) == [] + a == a;
  }
}
