/**
 The birthdays array of the engine and the two passes that rewrite it
 before any cake day is worked out: dropping the birth years, so that
 "YYYY-MM-DD" keys become "MM-DD" keys, and moving 29 February birthdays to
 1 March when the target year is not a leap year.
 */
module Birthdays {
  import opened Calendar
  import opened Names
  import opened PhpArray
  import opened Sequences

  /** A key of the birthdays array: a full birth date "YYYY-MM-DD", or the
      month and day "MM-DD" that is left once the year is stripped. */
  datatype BKey = Full(date: Date) | MonthDay(month: int, day: int)

  type BirthdayArray = PArray<BKey, seq<string>>

  /** substr($date, 5) on a zero-padded "YYYY-MM-DD" key. */
  function StripYear(d: Date): BKey
  {
    MonthDay(d.month, d.day)
  }

  /** What the engine is built from: full birth dates, each with a
      non-empty list of names.  Only the month and day of a key are ever
      read, so they must make a month-day of some year, but the year need
      not have it: "1979-02-29" is a key the class takes. */
  ghost predicate IsInput(b: BirthdayArray)
  {
    Strippable(b) && forall k :: k in b.vals ==> ValidMonthDay(k.date.month, k.date.day)
  }

  /** What the year-stripping pass needs: full dates, each with names. */
  ghost predicate Strippable(b: BirthdayArray)
  {
    Valid(b) && forall k :: k in b.vals ==> k.Full? && |b.vals[k]| > 0
  }

  /** A month and day that is a date in some year (29 February included). */
  predicate ValidMonthDay(m: int, d: int)
  {
    1 <= m <= 12 && 1 <= d <= (if m == 2 then 29 else DaysInMonth(1, m))
  }

  lemma MonthDayOfValidDate(d: Date)
    requires ValidDate(d)
    ensures ValidMonthDay(d.month, d.day)
  {
  }

  /** A month and day that is not 29 February falls in every year, and
      29 February falls in every leap year. */
  lemma MonthDayInYear(m: int, d: int, y: int)
    requires ValidMonthDay(m, d)
    requires IsLeapYear(y) || !(m == 2 && d == 29)
    ensures ValidDate(Date(y, m, d))
  {
  }

  /** A birthdays array keyed by month and day, each key a real month-day
      holding a sorted, non-empty list of names. */
  ghost predicate IsStripped(b: BirthdayArray)
  {
    && Valid(b)
    && forall k :: k in b.vals ==>
         k.MonthDay? && ValidMonthDay(k.month, k.day) && |b.vals[k]| > 0 && Sorted(b.vals[k])
  }

  // ---------------------------------------------------------------------
  // removeBirthdayYears

  /** array_push($b[$md], $name), or $b[$md] = [$name] when md is not yet a key. */
  function PushName(a: BirthdayArray, md: BKey, name: string): (r: BirthdayArray)
    ensures Valid(a) ==> Valid(r)
    ensures r.vals == a.vals[md := (if md in a.vals then a.vals[md] else []) + [name]]
  {
    assert [] + [name] == [name];
    Assign(a, md, if md in a.vals then a.vals[md] + [name] else [name])
  }

  /** The inner foreach: every name pushed under md in turn. */
  function PushNames(a: BirthdayArray, md: BKey, names: seq<string>): (r: BirthdayArray)
    ensures Valid(a) ==> Valid(r)
    decreases |names|
  {
    if |names| == 0 then a else PushNames(PushName(a, md, names[0]), md, names[1..])
  }

  /** The names end up after those already under md, in order. */
  lemma {:induction false} PushNamesEffect(a: BirthdayArray, md: BKey, names: seq<string>)
    requires |names| > 0
    ensures Valid(a) ==> Valid(PushNames(a, md, names))
    ensures PushNames(a, md, names).vals == a.vals[md := (if md in a.vals then a.vals[md] else []) + names]
    decreases |names|
  {
    var prev := if md in a.vals then a.vals[md] else [];
    if |names| == 1 {
      assert names == [names[0]];
    } else {
      PushNamesEffect(PushName(a, md, names[0]), md, names[1..]);
      assert prev + names == (prev + [names[0]]) + names[1..];
    }
  }

  /** One turn of the outer foreach, for the i-th key of the snapshot: its
      names are pushed under the month-day key, that list is sorted, and the
      full-date key is removed. */
  function StripOne(snap: BirthdayArray, i: nat, live: BirthdayArray): BirthdayArray
    requires i < |snap.keys| && snap.keys[i] in snap.vals && snap.keys[i].Full? && |snap.vals[snap.keys[i]]| > 0
  {
    var k := snap.keys[i];
    var md := StripYear(k.date);
    var pushed := PushNames(live, md, snap.vals[k]);
    PushNamesEffect(live, md, snap.vals[k]);
    Unset(Assign(pushed, md, SortNames(pushed.vals[md])), k)
  }

  /** The outer foreach from the i-th key of the snapshot on. */
  function StripFrom(snap: BirthdayArray, i: nat, live: BirthdayArray): BirthdayArray
    requires Strippable(snap) && i <= |snap.keys|
    decreases |snap.keys| - i
  {
    if i == |snap.keys| then live else StripFrom(snap, i + 1, StripOne(snap, i, live))
  }

  function StripYears(b: BirthdayArray): BirthdayArray
    requires IsInput(b)
  {
    StripFrom(b, 0, b)
  }

  /** The month-days of the full-date keys among keys. */
  ghost function MonthDaysOf(keys: seq<BKey>): set<BKey>
  {
    set k | k in keys && k.Full? :: StripYear(k.date)
  }

  /** The names of the full-date keys among keys that fall on month-day md,
      in key order. */
  function NamesUnder(keys: seq<BKey>, vals: map<BKey, seq<string>>, md: BKey): seq<string>
  {
    if |keys| == 0 then []
    else
      var k := keys[|keys| - 1];
      NamesUnder(keys[..|keys| - 1], vals, md)
        + (if k.Full? && k in vals && StripYear(k.date) == md then vals[k] else [])
  }

  lemma {:induction false} NamesUnderAbsent(keys: seq<BKey>, vals: map<BKey, seq<string>>, md: BKey)
    requires md !in MonthDaysOf(keys)
    ensures NamesUnder(keys, vals, md) == []
  {
    if |keys| > 0 {
      var k := keys[|keys| - 1];
      assert k in keys;
      assert MonthDaysOf(keys[..|keys| - 1]) <= MonthDaysOf(keys) by {
        forall x | x in MonthDaysOf(keys[..|keys| - 1]) ensures x in MonthDaysOf(keys) {
          var j :| j in keys[..|keys| - 1] && j.Full? && x == StripYear(j.date);
          assert j in keys;
        }
      }
      NamesUnderAbsent(keys[..|keys| - 1], vals, md);
    }
  }

  lemma MonthDaysOfStep(keys: seq<BKey>, i: nat)
    requires i < |keys| && keys[i].Full?
    ensures MonthDaysOf(keys[..i + 1]) == MonthDaysOf(keys[..i]) + {StripYear(keys[i].date)}
  {
    assert keys[..i + 1] == keys[..i] + [keys[i]];
  }

  /** The full-date keys from the i-th on are still there, with their names. */
  ghost predicate FullKeysLeft(snap: BirthdayArray, i: nat, m: map<BKey, seq<string>>)
    requires IsInput(snap) && i <= |snap.keys|
  {
    && (forall k :: k in m && k.Full? <==> k in snap.keys[i..])
    && (forall k :: k in m && k.Full? ==> k in snap.vals && m[k] == snap.vals[k])
  }

  /** Each month-day of the first i keys is a key holding, sorted, the names
      of all those birth dates that fall on it. */
  ghost predicate MonthDaysSeen(snap: BirthdayArray, i: nat, m: map<BKey, seq<string>>)
    requires IsInput(snap) && i <= |snap.keys|
  {
    && (forall k :: k in m && k.MonthDay? <==> k in MonthDaysOf(snap.keys[..i]))
    && (forall k :: k in m && k.MonthDay? ==>
          m[k] == SortNames(NamesUnder(snap.keys[..i], snap.vals, k)) && ValidMonthDay(k.month, k.day))
  }

  ghost predicate NonEmptyLists(m: map<BKey, seq<string>>)
  {
    forall k :: k in m ==> |m[k]| > 0
  }

  /** What holds after the first i turns of the outer foreach. */
  ghost predicate StripInv(snap: BirthdayArray, i: nat, live: BirthdayArray)
    requires IsInput(snap) && i <= |snap.keys|
  {
    && Valid(live)
    && FullKeysLeft(snap, i, live.vals)
    && MonthDaysSeen(snap, i, live.vals)
    && NonEmptyLists(live.vals)
    && AllNames(live.vals) == AllNames(snap.vals)
  }

  lemma StripInvStart(snap: BirthdayArray)
    requires IsInput(snap)
    ensures StripInv(snap, 0, snap)
  {
    assert snap.keys[0..] == snap.keys;
    assert MonthDaysOf(snap.keys[..0]) == {};
  }

  /** The names already under month-day md of the first i keys. */
  function Before(snap: BirthdayArray, i: nat, m: map<BKey, seq<string>>): seq<string>
    requires i < |snap.keys| && snap.keys[i].Full?
  {
    var md := StripYear(snap.keys[i].date);
    if md in m then m[md] else []
  }

  lemma StripOneEffect(snap: BirthdayArray, i: nat, live: BirthdayArray)
    requires i < |snap.keys| && snap.keys[i] in snap.vals && snap.keys[i].Full? && |snap.vals[snap.keys[i]]| > 0
    requires Valid(live)
    ensures Valid(StripOne(snap, i, live))
    ensures StripOne(snap, i, live).vals ==
      live.vals[StripYear(snap.keys[i].date) := SortNames(Before(snap, i, live.vals) + snap.vals[snap.keys[i]])]
        - {snap.keys[i]}
  {
    var k := snap.keys[i];
    var md := StripYear(k.date);
    var pushed := PushNames(live, md, snap.vals[k]);
    PushNamesEffect(live, md, snap.vals[k]);
    var p := Before(snap, i, live.vals) + snap.vals[k];
    assert pushed.vals == live.vals[md := p];
    var sorted := Assign(pushed, md, SortNames(pushed.vals[md]));
    assert sorted.vals == live.vals[md := p][md := SortNames(p)];
    UpdateTwice(live.vals, md, p, SortNames(p));
    assert StripOne(snap, i, live) == Unset(sorted, k);
  }

  lemma FullKeysStep(snap: BirthdayArray, i: nat, m: map<BKey, seq<string>>, v: seq<string>)
    requires IsInput(snap) && i < |snap.keys| && FullKeysLeft(snap, i, m)
    ensures FullKeysLeft(snap, i + 1, m[StripYear(snap.keys[i].date) := v] - {snap.keys[i]})
  {
    var k := snap.keys[i];
    assert snap.keys[i..] == [k] + snap.keys[i + 1..];
    assert k !in snap.keys[i + 1..] by {
      forall j | i + 1 <= j < |snap.keys| ensures snap.keys[j] != k { }
    }
  }

  lemma MonthDaysStepKeys(snap: BirthdayArray, i: nat, m: map<BKey, seq<string>>, v: seq<string>)
    requires IsInput(snap) && i < |snap.keys|
    requires forall k :: k in m && k.MonthDay? <==> k in MonthDaysOf(snap.keys[..i])
    ensures forall k :: k in m[StripYear(snap.keys[i].date) := v] - {snap.keys[i]} && k.MonthDay? <==>
      k in MonthDaysOf(snap.keys[..i + 1])
  {
    MonthDaysOfStep(snap.keys, i);
  }

  lemma NamesUnderStep(snap: BirthdayArray, i: nat, x: BKey)
    requires IsInput(snap) && i < |snap.keys|
    ensures NamesUnder(snap.keys[..i + 1], snap.vals, x) ==
      NamesUnder(snap.keys[..i], snap.vals, x) + (if StripYear(snap.keys[i].date) == x then snap.vals[snap.keys[i]] else [])
  {
    assert snap.keys[..i + 1][..i] == snap.keys[..i];
  }

  lemma MonthDaysStep(snap: BirthdayArray, i: nat, m: map<BKey, seq<string>>)
    requires IsInput(snap) && i < |snap.keys| && MonthDaysSeen(snap, i, m)
    ensures MonthDaysSeen(snap, i + 1,
      m[StripYear(snap.keys[i].date) := SortNames(Before(snap, i, m) + snap.vals[snap.keys[i]])] - {snap.keys[i]})
  {
    var k := snap.keys[i];
    var md := StripYear(k.date);
    var names := snap.vals[k];
    var prev := Before(snap, i, m);
    var m' := m[md := SortNames(prev + names)] - {k};
    MonthDaysStepKeys(snap, i, m, SortNames(prev + names));
    forall x | x in m' && x.MonthDay?
      ensures m'[x] == SortNames(NamesUnder(snap.keys[..i + 1], snap.vals, x))
    {
      NamesUnderStep(snap, i, x);
      if x == md {
        var before := NamesUnder(snap.keys[..i], snap.vals, md);
        if md !in m {
          NamesUnderAbsent(snap.keys[..i], snap.vals, md);
        }
        assert multiset(prev + names) == multiset(before + names);
        SortNamesPermutation(prev + names, before + names);
      } else {
        assert m'[x] == m[x];
        assert NamesUnder(snap.keys[..i + 1], snap.vals, x) == NamesUnder(snap.keys[..i], snap.vals, x) + [];
        assert NamesUnder(snap.keys[..i], snap.vals, x) + [] == NamesUnder(snap.keys[..i], snap.vals, x);
      }
    }
  }

  lemma StripOneFull(snap: BirthdayArray, i: nat, live: BirthdayArray)
    requires IsInput(snap) && i < |snap.keys| && Valid(live) && FullKeysLeft(snap, i, live.vals)
    ensures FullKeysLeft(snap, i + 1, StripOne(snap, i, live).vals)
  {
    StripOneEffect(snap, i, live);
    FullKeysStep(snap, i, live.vals, SortNames(Before(snap, i, live.vals) + snap.vals[snap.keys[i]]));
  }

  lemma StripOneMonthDays(snap: BirthdayArray, i: nat, live: BirthdayArray)
    requires IsInput(snap) && i < |snap.keys| && Valid(live) && MonthDaysSeen(snap, i, live.vals)
    ensures MonthDaysSeen(snap, i + 1, StripOne(snap, i, live).vals)
  {
    StripOneEffect(snap, i, live);
    MonthDaysStep(snap, i, live.vals);
  }

  lemma StripOneNames(snap: BirthdayArray, i: nat, live: BirthdayArray)
    requires IsInput(snap) && i < |snap.keys| && Valid(live) && FullKeysLeft(snap, i, live.vals)
    ensures AllNames(StripOne(snap, i, live).vals) == AllNames(live.vals)
  {
    var k := snap.keys[i];
    var prev := Before(snap, i, live.vals);
    var names := snap.vals[k];
    StripOneEffect(snap, i, live);
    assert k in snap.keys[i..];
    ElemsSortNames(prev + names);
    ElemsConcat(prev, names);
    AllNamesMove(live.vals, k, StripYear(k.date), SortNames(prev + names));
  }

  lemma StripOneKeeps(snap: BirthdayArray, i: nat, live: BirthdayArray)
    requires IsInput(snap) && i < |snap.keys| && StripInv(snap, i, live)
    ensures StripInv(snap, i + 1, StripOne(snap, i, live))
  {
    StripOneEffect(snap, i, live);
    StripOneFull(snap, i, live);
    StripOneMonthDays(snap, i, live);
    StripOneNames(snap, i, live);
  }

  /** The invariant holds after the rest of the outer foreach. */
  lemma {:induction false} StripFromKeeps(snap: BirthdayArray, i: nat, live: BirthdayArray)
    requires IsInput(snap) && i <= |snap.keys| && StripInv(snap, i, live)
    ensures StripInv(snap, |snap.keys|, StripFrom(snap, i, live))
    decreases |snap.keys| - i
  {
    if i < |snap.keys| {
      StripOneKeeps(snap, i, live);
      StripFromKeeps(snap, i + 1, StripOne(snap, i, live));
    }
  }

  /** What the invariant says once every key of the snapshot is visited. */
  lemma StripInvEnd(b: BirthdayArray, r: BirthdayArray)
    requires IsInput(b) && StripInv(b, |b.keys|, r)
    ensures IsStripped(r)
    ensures forall k :: k in r.vals <==> k in MonthDaysOf(b.keys)
    ensures forall k :: k in r.vals ==> r.vals[k] == SortNames(NamesUnder(b.keys, b.vals, k))
  {
    assert b.keys[..|b.keys|] == b.keys;
    forall k | k in r.vals ensures k.MonthDay? {
      assert k !in b.keys[|b.keys|..];
    }
  }

  /** removeBirthdayYears leaves exactly one key per month-day on which
      somebody was born, holding the sorted names of everybody born on it,
      and loses no name. */
  lemma StripYearsSpec(b: BirthdayArray)
    requires IsInput(b)
    ensures IsStripped(StripYears(b))
    ensures forall k :: k in StripYears(b).vals <==> k in MonthDaysOf(b.keys)
    ensures forall k :: k in StripYears(b).vals ==>
              StripYears(b).vals[k] == SortNames(NamesUnder(b.keys, b.vals, k))
    ensures AllNames(StripYears(b).vals) == AllNames(b.vals)
  {
    StripInvStart(b);
    StripFromKeeps(b, 0, b);
    StripInvEnd(b, StripFrom(b, 0, b));
  }

  /** A name listed under a full birth date is among the names gathered
      under its month and day. */
  lemma {:induction false} NamesUnderHas(keys: seq<BKey>, vals: map<BKey, seq<string>>, k: BKey, x: string)
    requires k in keys && k.Full? && k in vals && x in vals[k]
    ensures x in NamesUnder(keys, vals, StripYear(k.date))
  {
    var n := |keys| - 1;
    if keys[n] != k {
      assert k in keys[..n] by {
        var j :| 0 <= j < |keys| && keys[j] == k;
        assert keys[..n][j] == k;
      }
      NamesUnderHas(keys[..n], vals, k, x);
    }
  }

  /** Every name of the input ends up under the month and day of its
      birth date. */
  lemma StripYearsKeepsName(b: BirthdayArray, k: BKey, x: string)
    requires IsInput(b) && k in b.vals && x in b.vals[k]
    ensures StripYear(k.date) in StripYears(b).vals && x in StripYears(b).vals[StripYear(k.date)]
  {
    var md := StripYear(k.date);
    assert k in b.keys && k.Full?;
    assert md in MonthDaysOf(b.keys);
    NamesUnderHas(b.keys, b.vals, k, x);
    SortNamesHas(NamesUnder(b.keys, b.vals, md), x);
    StripYearsAt(b, md);
  }

  /** A name is gathered under month-day md exactly when it is listed under
      one of the full birth dates among keys that falls on md. */
  lemma {:induction false} NamesUnderElems(keys: seq<BKey>, vals: map<BKey, seq<string>>, md: BKey, x: string)
    ensures x in NamesUnder(keys, vals, md) <==>
      exists k :: k in keys && k.Full? && k in vals && StripYear(k.date) == md && x in vals[k]
    decreases |keys|
  {
    if |keys| > 0 {
      var n := |keys| - 1;
      NamesUnderElems(keys[..n], vals, md, x);
      assert keys == keys[..n] + [keys[n]];
      assert forall k :: k in keys <==> k in keys[..n] || k == keys[n];
    }
  }

  /** After removeBirthdayYears, a name is under month-day md exactly when
      somebody of that name was born on md in some year. */
  lemma StripYearsHas(b: BirthdayArray, md: BKey, x: string)
    requires IsInput(b)
    ensures md in StripYears(b).vals && x in StripYears(b).vals[md] <==>
      exists k :: k in b.vals && StripYear(k.date) == md && x in b.vals[k]
  {
    StripYearsSpec(b);
    NamesUnderElems(b.keys, b.vals, md, x);
    if k :| k in b.vals && StripYear(k.date) == md && x in b.vals[k] {
      StripYearsKeepsName(b, k, x);
    }
    if md in StripYears(b).vals {
      assert x in SortNames(NamesUnder(b.keys, b.vals, md)) <==> x in multiset(NamesUnder(b.keys, b.vals, md));
    }
  }

  /** The month-day of a birth date is a key of the stripped array, holding
      the sorted names of everybody born on it. */
  lemma StripYearsAt(b: BirthdayArray, md: BKey)
    requires IsInput(b) && md in MonthDaysOf(b.keys)
    ensures md in StripYears(b).vals && StripYears(b).vals[md] == SortNames(NamesUnder(b.keys, b.vals, md))
  {
    StripYearsSpec(b);
  }

  // ---------------------------------------------------------------------
  // leapYearFix

  const Feb29: BKey := MonthDay(2, 29)
  const Mar1: BKey := MonthDay(3, 1)

  function LeapFix(b: BirthdayArray, year: int): BirthdayArray
  {
    if Feb29 in b.vals && !IsLeapYear(year) then
      var names := b.vals[Feb29];
      var moved := if Mar1 in b.vals then Assign(b, Mar1, Dedup(b.vals[Mar1] + names))
                   else Assign(b, Mar1, names);
      Unset(Assign(moved, Mar1, SortNames(moved.vals[Mar1])), Feb29)
    else b
  }

  /** The list 1 March ends up with when 29 February is moved onto it. */
  function MovedMar1(b: BirthdayArray): seq<string>
    requires Feb29 in b.vals
  {
    if Mar1 in b.vals then SortedSet(b.vals[Mar1] + b.vals[Feb29]) else SortNames(b.vals[Feb29])
  }

  lemma LeapFixEffect(b: BirthdayArray, year: int)
    requires Valid(b) && Feb29 in b.vals && !IsLeapYear(year)
    ensures Valid(LeapFix(b, year))
    ensures LeapFix(b, year).vals == b.vals[Mar1 := MovedMar1(b)] - {Feb29}
  {
    var names := b.vals[Feb29];
    var p := if Mar1 in b.vals then Dedup(b.vals[Mar1] + names) else names;
    var moved := Assign(b, Mar1, p);
    assert moved.vals[Mar1] == p;
    var sorted := Assign(moved, Mar1, SortNames(p));
    UpdateTwice(b.vals, Mar1, p, SortNames(p));
    assert SortNames(p) == MovedMar1(b);
    assert LeapFix(b, year) == Unset(sorted, Feb29);
  }

  lemma MovedMar1Names(b: BirthdayArray)
    requires IsStripped(b) && Feb29 in b.vals
    ensures Mar1 !in b.vals ==> MovedMar1(b) == b.vals[Feb29]
    ensures Mar1 in b.vals ==> Distinct(MovedMar1(b))
    ensures Elems(MovedMar1(b)) == (if Mar1 in b.vals then Elems(b.vals[Mar1]) else {}) + Elems(b.vals[Feb29])
    ensures |MovedMar1(b)| > 0 && Sorted(MovedMar1(b))
  {
    var names := b.vals[Feb29];
    if Mar1 in b.vals {
      var v := MovedMar1(b);
      assert Elems(v) == Elems(b.vals[Mar1] + names);
      ElemsConcat(b.vals[Mar1], names);
      assert names[0] in v;
    } else {
      SortNamesOfSorted(names);
    }
  }


  lemma LeapFixNames(b: BirthdayArray, year: int)
    requires IsStripped(b)
    ensures AllNames(LeapFix(b, year).vals) == AllNames(b.vals)
  {
    if Feb29 in b.vals && !IsLeapYear(year) {
      LeapFixEffect(b, year);
      MovedMar1Names(b);
      AllNamesMove(b.vals, Feb29, Mar1, MovedMar1(b));
    }
  }

  lemma LeapFixShape(b: BirthdayArray, year: int)
    requires IsStripped(b)
    ensures IsStripped(LeapFix(b, year))
  {
    if Feb29 in b.vals && !IsLeapYear(year) {
      LeapFixEffect(b, year);
      MovedMar1Names(b);
      var m := b.vals[Mar1 := MovedMar1(b)] - {Feb29};
      forall k | k in m ensures k.MonthDay? && ValidMonthDay(k.month, k.day) && |m[k]| > 0 && Sorted(m[k]) {
        if k != Mar1 {
          assert m[k] == b.vals[k];
        }
      }
    }
  }

  lemma LeapFixDates(b: BirthdayArray, year: int)
    requires IsStripped(b)
    ensures forall k :: k in LeapFix(b, year).vals ==> ValidDate(Date(year, k.month, k.day))
  {
    if Feb29 in b.vals && !IsLeapYear(year) {
      LeapFixEffect(b, year);
      MovedMar1Names(b);
      var m := b.vals[Mar1 := MovedMar1(b)] - {Feb29};
      forall k | k in m ensures ValidDate(Date(year, k.month, k.day)) {
        if k != Mar1 {
          assert k in b.vals;
          MonthDayInYear(k.month, k.day, year);
        }
      }
    } else {
      forall k | k in b.vals ensures ValidDate(Date(year, k.month, k.day)) {
        MonthDayInYear(k.month, k.day, year);
      }
    }
  }

  /** In a leap year, or with nobody born on 29 February, nothing changes.
      Otherwise the 29 February key is gone and its names are on 1 March:
      unchanged when nobody else was born on 1 March, without repeats when
      they join an existing 1 March list.  Every other key keeps its names,
      every list stays sorted, no name is lost, and every key left is a date
      of the target year. */
  lemma LeapFixSpec(b: BirthdayArray, year: int)
    requires IsStripped(b)
    ensures IsStripped(LeapFix(b, year))
    ensures forall k :: k in LeapFix(b, year).vals ==> ValidDate(Date(year, k.month, k.day))
    ensures IsLeapYear(year) || Feb29 !in b.vals ==> LeapFix(b, year) == b
    ensures !IsLeapYear(year) && Feb29 in b.vals ==>
      var r := LeapFix(b, year);
      && Feb29 !in r.vals && Mar1 in r.vals
      && (Mar1 !in b.vals ==> r.vals[Mar1] == b.vals[Feb29])
      && (Mar1 in b.vals ==>
            Distinct(r.vals[Mar1]) &&
            forall x :: x in r.vals[Mar1] <==> x in b.vals[Mar1] || x in b.vals[Feb29])
      && forall k :: k != Feb29 && k != Mar1 ==>
           (k in r.vals <==> k in b.vals) && (k in r.vals ==> r.vals[k] == b.vals[k])
    ensures AllNames(LeapFix(b, year).vals) == AllNames(b.vals)
  {
    LeapFixShape(b, year);
    LeapFixDates(b, year);
    LeapFixNames(b, year);
    if Feb29 in b.vals && !IsLeapYear(year) {
      LeapFixMoves(b, year);
    }
  }

  lemma LeapFixMoves(b: BirthdayArray, year: int)
    requires IsStripped(b) && Feb29 in b.vals && !IsLeapYear(year)
    ensures var r := LeapFix(b, year);
      && Feb29 !in r.vals && Mar1 in r.vals
      && (Mar1 !in b.vals ==> r.vals[Mar1] == b.vals[Feb29])
      && (Mar1 in b.vals ==>
            Distinct(r.vals[Mar1]) &&
            forall x :: x in r.vals[Mar1] <==> x in b.vals[Mar1] || x in b.vals[Feb29])
      && forall k :: k != Feb29 && k != Mar1 ==>
           (k in r.vals <==> k in b.vals) && (k in r.vals ==> r.vals[k] == b.vals[k])
  {
    LeapFixEffect(b, year);
    MovedMar1Names(b);
  }

  /** The month-day a name is found under once 29 February is dealt with. */
  function LeapTarget(year: int, k: BKey): BKey
  {
    if k == Feb29 && !IsLeapYear(year) then Mar1 else k
  }

  /** A name under month-day k is under LeapTarget(year, k) afterwards. */
  lemma LeapFixKeepsName(b: BirthdayArray, year: int, k: BKey, x: string)
    requires IsStripped(b) && k in b.vals && x in b.vals[k]
    ensures LeapTarget(year, k) in LeapFix(b, year).vals && x in LeapFix(b, year).vals[LeapTarget(year, k)]
  {
    if Feb29 in b.vals && !IsLeapYear(year) {
      LeapFixMoves(b, year);
    }
  }

  /** After leapYearFix, a name is under month-day md exactly when it was
      under a month-day whose target is md. */
  lemma LeapFixHas(b: BirthdayArray, year: int, md: BKey, x: string)
    requires IsStripped(b)
    ensures md in LeapFix(b, year).vals && x in LeapFix(b, year).vals[md] <==>
      exists m :: m in b.vals && LeapTarget(year, m) == md && x in b.vals[m]
  {
    if m :| m in b.vals && LeapTarget(year, m) == md && x in b.vals[m] {
      LeapFixKeepsName(b, year, m, x);
    }
    if md in LeapFix(b, year).vals && x in LeapFix(b, year).vals[md] {
      LeapFixCameFrom(b, year, md, x);
    }
  }

  /** A name under month-day md after leapYearFix was under a month-day
      whose target is md. */
  lemma LeapFixCameFrom(b: BirthdayArray, year: int, md: BKey, x: string)
    requires IsStripped(b) && md in LeapFix(b, year).vals && x in LeapFix(b, year).vals[md]
    ensures exists m :: m in b.vals && LeapTarget(year, m) == md && x in b.vals[m]
  {
    LeapFixSpec(b, year);
    if Feb29 in b.vals && !IsLeapYear(year) {
      if md == Mar1 {
        if Mar1 in b.vals && x in b.vals[Mar1] {
          assert LeapTarget(year, Mar1) == Mar1;
        } else {
          assert LeapTarget(year, Feb29) == Mar1 && x in b.vals[Feb29];
        }
      } else if md != Feb29 {
        assert LeapTarget(year, md) == md && md in b.vals;
      }
    } else {
      assert LeapTarget(year, md) == md && md in b.vals;
    }
  }

  // ---------------------------------------------------------------------
  // ksort($this->birthdays)

  /** How ksort compares "MM-DD" keys: as the number MMDD. */
  function KeyRank(k: BKey): int
  {
    match k
    case Full(d) => Ord(d)
    case MonthDay(m, d) => m * 100 + d
  }

  /** Keys in strictly ascending order of their rank. */
  predicate InDayOrder(keys: seq<BKey>)
  {
    forall i, j {:trigger KeyRank(keys[i]), KeyRank(keys[j])} :: 0 <= i < j < |keys| ==> KeyRank(keys[i]) < KeyRank(keys[j])
  }

  /** Sorting the month-day keys puts them in strictly ascending calendar
      order, and keeps every key with its names. */
  lemma SortBirthdaysSpec(b: BirthdayArray)
    requires IsStripped(b)
    ensures IsStripped(KSort(b, KeyRank)) && KSort(b, KeyRank).vals == b.vals
    ensures InDayOrder(KSort(b, KeyRank).keys)
  {
    var r := KSort(b, KeyRank);
    forall x, y | x in r.keys && y in r.keys && KeyRank(x) == KeyRank(y) ensures x == y {
      assert x in r.vals && y in r.vals;
    }
    SortedDistinctIsStrict(r.keys, KeyRank);
    assert StrictlyRankSorted(r.keys, KeyRank);
  }
}
