/**
 The cake day stack: for every cake day of the target year, the sorted
 names of those who get cake on it.  This module builds the first stack
 from the birthdays (populateCakeDaysStack).
 */
module CakeStack {
  import opened Calendar
  import opened Names
  import opened PhpArray
  import opened WorkingDays
  import opened Birthdays
  import opened Sequences

  type Stack = PArray<Date, seq<string>>

  /** The state of a foreach over the stack that carries a skip flag: the
      flag, and the live stack. */
  datatype Walk = Walk(skip: bool, stack: Stack)

  /** The shape every pass keeps: each key is a valid working day holding a
      sorted, non-empty list of names. */
  ghost predicate IsStack(hs: seq<Date>, s: Stack)
  {
    && Valid(s)
    && forall d :: d in s.vals ==> ValidDate(d) && IsWorkingDay(hs, d) && |s.vals[d]| > 0 && Sorted(s.vals[d])
  }

  /** Keys in strictly ascending calendar order. */
  predicate Chronological(keys: seq<Date>)
  {
    forall i, j {:trigger Ord(keys[i]), Ord(keys[j])} :: 0 <= i < j < |keys| ==> Ord(keys[i]) < Ord(keys[j])
  }

  /** date("Y-").$date: a month-day key as a date of the target year. */
  function InYear(year: int, k: BKey): Date
    requires k.MonthDay?
  {
    Date(year, k.month, k.day)
  }

  /** The birthdays array as populateCakeDaysStack receives it: stripped,
      fixed for 29 February, and every key a date of the target year. */
  ghost predicate IsReady(b: BirthdayArray, year: int)
  {
    IsStripped(b) && forall k :: k in b.vals ==> ValidDate(InYear(year, k))
  }

  /** One turn of the foreach, for the i-th birthday key: its names go onto
      its cake day, merged with and sorted among the names already there. */
  function PopulateOne(hs: seq<Date>, year: int, b: BirthdayArray, i: nat, s: Stack): Stack
    requires i < |b.keys| && b.keys[i] in b.vals && b.keys[i].MonthDay? && ValidDate(InYear(year, b.keys[i]))
  {
    var k := b.keys[i];
    var day := CakeDay(hs, InYear(year, k));
    if day in s.vals then Assign(s, day, SortNames(s.vals[day] + b.vals[k]))
    else Assign(s, day, b.vals[k])
  }

  function PopulateFrom(hs: seq<Date>, year: int, b: BirthdayArray, i: nat, s: Stack): Stack
    requires IsReady(b, year) && i <= |b.keys|
    decreases |b.keys| - i
  {
    if i == |b.keys| then s else PopulateFrom(hs, year, b, i + 1, PopulateOne(hs, year, b, i, s))
  }

  function Populate(hs: seq<Date>, year: int, b: BirthdayArray): Stack
    requires IsReady(b, year)
  {
    PopulateFrom(hs, year, b, 0, Empty())
  }

  /** The names, in key order, of the birthdays among keys whose cake day is d. */
  function CakeNames(hs: seq<Date>, year: int, keys: seq<BKey>, vals: map<BKey, seq<string>>, d: Date): seq<string>
  {
    if |keys| == 0 then []
    else
      var k := keys[|keys| - 1];
      CakeNames(hs, year, keys[..|keys| - 1], vals, d)
        + (if k.MonthDay? && k in vals && ValidDate(InYear(year, k)) && CakeDay(hs, InYear(year, k)) == d
           then vals[k] else [])
  }

  lemma CakeNamesStep(hs: seq<Date>, year: int, b: BirthdayArray, i: nat, d: Date)
    requires IsReady(b, year) && i < |b.keys|
    ensures CakeNames(hs, year, b.keys[..i + 1], b.vals, d) ==
      CakeNames(hs, year, b.keys[..i], b.vals, d)
        + (if CakeDay(hs, InYear(year, b.keys[i])) == d then b.vals[b.keys[i]] else [])
  {
    assert b.keys[..i + 1][..i] == b.keys[..i];
  }

  // ---------------------------------------------------------------------
  // The shape of the stack.

  lemma PopulateOneShape(hs: seq<Date>, year: int, b: BirthdayArray, i: nat, s: Stack)
    requires IsReady(b, year) && i < |b.keys| && IsStack(hs, s)
    ensures IsStack(hs, PopulateOne(hs, year, b, i, s))
  {
    var k := b.keys[i];
    CakeDayProperties(hs, InYear(year, k));
    var day := CakeDay(hs, InYear(year, k));
    var r := PopulateOne(hs, year, b, i, s);
    if day in s.vals {
      var v := SortNames(s.vals[day] + b.vals[k]);
      assert b.vals[k][0] in multiset(v);
      assert r.vals == s.vals[day := v];
    } else {
      assert r.vals == s.vals[day := b.vals[k]];
    }
    forall d | d in r.vals ensures ValidDate(d) && IsWorkingDay(hs, d) && |r.vals[d]| > 0 && Sorted(r.vals[d]) {
      if d != day {
        assert d in s.vals;
      }
    }
  }

  // ---------------------------------------------------------------------
  // The order of the keys: birthdays are visited in calendar order, so each
  // cake day is either the last key or a new, later one.

  ghost predicate OrderInv(hs: seq<Date>, year: int, b: BirthdayArray, i: nat, s: Stack)
    requires IsReady(b, year) && i <= |b.keys|
  {
    && Valid(s)
    && Chronological(s.keys)
    && (i == 0 ==> s.keys == [])
    && (i > 0 ==> |s.keys| > 0 && s.keys[|s.keys| - 1] == CakeDay(hs, InYear(year, b.keys[i - 1])))
  }

  lemma ChronologicalLast(keys: seq<Date>, j: nat)
    requires Chronological(keys) && j < |keys|
    ensures Ord(keys[j]) <= Ord(keys[|keys| - 1])
  {
  }

  lemma ChronologicalAppend(keys: seq<Date>, d: Date)
    requires Chronological(keys) && (|keys| > 0 ==> Ord(keys[|keys| - 1]) < Ord(d))
    ensures Chronological(keys + [d])
  {
    forall j | 0 <= j < |keys| ensures Ord(keys[j]) < Ord(d) {
      ChronologicalLast(keys, j);
    }
  }

  /** Removing a key keeps the others in calendar order. */
  lemma ChronologicalWithout(keys: seq<Date>, d: Date)
    requires Chronological(keys)
    ensures Chronological(Without(keys, d))
  {
    assert StrictlyRankSorted(keys, Ord);
    WithoutKeepsOrder(keys, d, Ord);
    var r := Without(keys, d);
    assert forall i, j :: 0 <= i < j < |r| ==> Ord(r[i]) < Ord(r[j]);
  }

  lemma ChronologicalDistinct(keys: seq<Date>)
    requires Chronological(keys)
    ensures Distinct(keys)
  {
    forall i, j | 0 <= i < j < |keys| ensures keys[i] != keys[j] {
      assert Ord(keys[i]) < Ord(keys[j]);
    }
  }

  lemma ChronologicalFirst(keys: seq<Date>, j: nat)
    requires Chronological(keys) && j < |keys|
    ensures Ord(keys[0]) <= Ord(keys[j])
  {
  }

  /** Two key orders in calendar order holding the same dates are the same. */
  lemma {:induction false} ChronologicalUnique(a: seq<Date>, b: seq<Date>)
    requires Chronological(a) && Chronological(b)
    requires forall x :: x in a <==> x in b
    ensures a == b
    decreases |a|
  {
    if |a| == 0 {
      ChronologicalEmpty(a, b);
    } else {
      assert a[0] in b;
      ChronologicalHead(a, b);
      ChronologicalRest(a);
      ChronologicalRest(b);
      forall x ensures x in a[1..] <==> x in b[1..] {
        assert x in a <==> x == a[0] || x in a[1..];
        assert x in b <==> x == b[0] || x in b[1..];
      }
      ChronologicalUnique(a[1..], b[1..]);
      assert a == [a[0]] + a[1..] && b == [b[0]] + b[1..];
    }
  }

  /** A key order holding the same dates as an empty one is empty. */
  lemma ChronologicalEmpty(a: seq<Date>, b: seq<Date>)
    requires |a| == 0 && forall x :: x in a <==> x in b
    ensures b == []
  {
    forall x ensures multiset(b)[x] == 0 {
      assert x !in a;
    }
    assert multiset(b) == multiset{};
    assert |b| == |multiset(b)|;
  }

  /** Two nonempty key orders in calendar order holding the same dates start
      on the same date. */
  lemma ChronologicalHead(a: seq<Date>, b: seq<Date>)
    requires Chronological(a) && Chronological(b) && |a| > 0 && |b| > 0
    requires forall x :: x in a <==> x in b
    ensures a[0] == b[0]
  {
    assert a[0] in b && b[0] in a;
    var i :| 0 <= i < |a| && a[i] == b[0];
    var j :| 0 <= j < |b| && b[j] == a[0];
    ChronologicalFirst(b, j);
    ChronologicalLeast(a, i);
  }

  /** Only the first date of a key order in calendar order is no later than
      the first. */
  lemma ChronologicalLeast(a: seq<Date>, i: nat)
    requires Chronological(a) && i < |a| && Ord(a[i]) <= Ord(a[0])
    ensures i == 0
  {
  }

  /** The first date of a key order in calendar order is not met again, and
      the rest stay in calendar order. */
  lemma ChronologicalRest(a: seq<Date>)
    requires Chronological(a) && |a| > 0
    ensures a[0] !in a[1..] && Chronological(a[1..])
  {
    forall k | 1 <= k < |a| ensures a[k] != a[0] {
      assert Ord(a[0]) < Ord(a[k]);
    }
    assert Chronological(a[1..]) by {
      forall i, j | 0 <= i < j < |a[1..]| ensures Ord(a[1..][i]) < Ord(a[1..][j]) {
        assert a[1..][i] == a[i + 1] && a[1..][j] == a[j + 1];
      }
    }
  }

  /** ksort on a stack of valid dates puts its keys in calendar order, so a
      stack already in calendar order is left as it is. */
  lemma KSortStack(s: Stack)
    requires Valid(s) && forall d :: d in s.vals ==> ValidDate(d)
    ensures Chronological(KSort(s, Ord).keys)
    ensures Chronological(s.keys) ==> KSort(s, Ord) == s
  {
    var r := KSort(s, Ord);
    forall x, y | x in r.keys && y in r.keys && Ord(x) == Ord(y) ensures x == y {
      assert x in r.vals && y in r.vals;
      OrdInjective(x, y);
    }
    SortedDistinctIsStrict(r.keys, Ord);
    assert StrictlyRankSorted(r.keys, Ord);
    if Chronological(s.keys) {
      assert forall x :: x in r.keys <==> x in s.keys by {
        forall x ensures x in r.keys <==> x in s.keys {
          assert x in r.keys <==> x in multiset(r.keys);
        }
      }
      ChronologicalUnique(r.keys, s.keys);
    }
  }

  /** A stack whose keys are distinct valid dates in calendar order. */
  ghost predicate Ordered(s: Stack)
  {
    Valid(s) && Chronological(s.keys) && forall d :: d in s.vals ==> ValidDate(d)
  }

  /** The keys still to be visited are all there; those not marked for
      skipping still hold their snapshot names, and the one marked for
      skipping holds at least those. */
  ghost predicate Pending(snap: Stack, i: nat, skip: bool, live: Stack)
  {
    && (forall j :: i <= j < |snap.keys| ==> snap.keys[j] in live.vals)
    && (forall j :: i <= j < |snap.keys| && (j > i || !skip) ==>
          snap.keys[j] in snap.vals && snap.keys[j] in live.vals && live.vals[snap.keys[j]] == snap.vals[snap.keys[j]])
    && (skip && i < |snap.keys| ==>
          snap.keys[i] in snap.vals && snap.keys[i] in live.vals
          && Elems(snap.vals[snap.keys[i]]) <= Elems(live.vals[snap.keys[i]]))
  }

  /** In calendar order, a key whose next day is also a key is followed by it. */
  lemma NextKeyFollows(s: Stack, i: nat)
    requires Ordered(s) && i < |s.keys| && Next(s.keys[i]) in s.vals
    ensures i + 1 < |s.keys| && s.keys[i + 1] == Next(s.keys[i])
  {
    var keys := s.keys;
    var j :| 0 <= j < |keys| && keys[j] == Next(keys[i]);
    assert ValidDate(keys[i]);
    assert Ord(keys[i]) < Ord(keys[j]);
    assert i < j;
    if j > i + 1 {
      assert ValidDate(keys[i + 1]);
      NextIsImmediate(keys[i], keys[i + 1]);
    }
  }

  /** The birthdays come in ascending order, so do their cake days. */
  lemma CakeDaysAscend(hs: seq<Date>, year: int, b: BirthdayArray, i: nat)
    requires IsReady(b, year) && 0 < i < |b.keys| && InDayOrder(b.keys)
    ensures Ord(CakeDay(hs, InYear(year, b.keys[i - 1]))) <= Ord(CakeDay(hs, InYear(year, b.keys[i])))
  {
    assert KeyRank(b.keys[i - 1]) < KeyRank(b.keys[i]);
    CakeDayMonotonic(hs, InYear(year, b.keys[i - 1]), InYear(year, b.keys[i]));
  }

  /** A cake day already on the stack can only be its last key. */
  lemma CakeDayOnStackIsLast(s: Stack, day: Date, last: Date)
    requires Valid(s) && Chronological(s.keys) && |s.keys| > 0 && s.keys[|s.keys| - 1] == last
    requires ValidDate(day) && ValidDate(last) && Ord(last) <= Ord(day) && day in s.vals
    ensures day == last
  {
    var j :| 0 <= j < |s.keys| && s.keys[j] == day;
    ChronologicalLast(s.keys, j);
    OrdInjective(day, last);
  }

  lemma PopulateOneOrder(hs: seq<Date>, year: int, b: BirthdayArray, i: nat, s: Stack)
    requires IsReady(b, year) && i < |b.keys| && InDayOrder(b.keys)
    requires OrderInv(hs, year, b, i, s)
    ensures OrderInv(hs, year, b, i + 1, PopulateOne(hs, year, b, i, s))
  {
    var day := CakeDay(hs, InYear(year, b.keys[i]));
    if i > 0 {
      if day in s.vals {
        PopulateOneOrderKnown(hs, year, b, i, s);
      } else {
        PopulateOneOrderNew(hs, year, b, i, s);
      }
    }
  }

  lemma PopulateOneOrderKnown(hs: seq<Date>, year: int, b: BirthdayArray, i: nat, s: Stack)
    requires IsReady(b, year) && 0 < i < |b.keys| && InDayOrder(b.keys)
    requires OrderInv(hs, year, b, i, s) && CakeDay(hs, InYear(year, b.keys[i])) in s.vals
    ensures PopulateOne(hs, year, b, i, s).keys == s.keys
    ensures s.keys[|s.keys| - 1] == CakeDay(hs, InYear(year, b.keys[i]))
  {
    CakeDaysAscend(hs, year, b, i);
    CakeDayProperties(hs, InYear(year, b.keys[i - 1]));
    CakeDayProperties(hs, InYear(year, b.keys[i]));
    CakeDayOnStackIsLast(s, CakeDay(hs, InYear(year, b.keys[i])), CakeDay(hs, InYear(year, b.keys[i - 1])));
  }

  lemma PopulateOneOrderNew(hs: seq<Date>, year: int, b: BirthdayArray, i: nat, s: Stack)
    requires IsReady(b, year) && 0 < i < |b.keys| && InDayOrder(b.keys)
    requires OrderInv(hs, year, b, i, s) && CakeDay(hs, InYear(year, b.keys[i])) !in s.vals
    ensures PopulateOne(hs, year, b, i, s).keys == s.keys + [CakeDay(hs, InYear(year, b.keys[i]))]
    ensures Chronological(s.keys + [CakeDay(hs, InYear(year, b.keys[i]))])
  {
    var day := CakeDay(hs, InYear(year, b.keys[i]));
    var last := CakeDay(hs, InYear(year, b.keys[i - 1]));
    CakeDaysAscend(hs, year, b, i);
    CakeDayProperties(hs, InYear(year, b.keys[i - 1]));
    CakeDayProperties(hs, InYear(year, b.keys[i]));
    OrdInjectiveContra(day, last);
    ChronologicalAppend(s.keys, day);
  }

  // ---------------------------------------------------------------------
  // The contents: each cake day holds exactly the names it is owed.

  ghost predicate ContentsInv(hs: seq<Date>, year: int, b: BirthdayArray, i: nat, s: Stack)
    requires IsReady(b, year) && i <= |b.keys|
  {
    && (forall d :: d in s.vals <==> CakeNames(hs, year, b.keys[..i], b.vals, d) != [])
    && (forall d :: d in s.vals ==> s.vals[d] == SortNames(CakeNames(hs, year, b.keys[..i], b.vals, d)))
  }

  lemma PopulateOneContents(hs: seq<Date>, year: int, b: BirthdayArray, i: nat, s: Stack)
    requires IsReady(b, year) && i < |b.keys| && ContentsInv(hs, year, b, i, s)
    ensures ContentsInv(hs, year, b, i + 1, PopulateOne(hs, year, b, i, s))
  {
    forall d {
      PopulateOneAt(hs, year, b, i, s, d);
    }
  }

  /** One cake day after the i-th turn. */
  lemma PopulateOneAt(hs: seq<Date>, year: int, b: BirthdayArray, i: nat, s: Stack, d: Date)
    requires IsReady(b, year) && i < |b.keys| && ContentsInv(hs, year, b, i, s)
    ensures var r := PopulateOne(hs, year, b, i, s);
      && (d in r.vals <==> CakeNames(hs, year, b.keys[..i + 1], b.vals, d) != [])
      && (d in r.vals ==> r.vals[d] == SortNames(CakeNames(hs, year, b.keys[..i + 1], b.vals, d)))
  {
    CakeNamesStep(hs, year, b, i, d);
    if d == CakeDay(hs, InYear(year, b.keys[i])) {
      PopulateOneDay(hs, year, b, i, s, CakeNames(hs, year, b.keys[..i], b.vals, d));
    } else {
      assert CakeNames(hs, year, b.keys[..i], b.vals, d) + [] == CakeNames(hs, year, b.keys[..i], b.vals, d);
    }
  }

  /** The cake day of the i-th key ends up with its names merged in with
      the names it held, before. */
  lemma PopulateOneDay(hs: seq<Date>, year: int, b: BirthdayArray, i: nat, s: Stack, before: seq<string>)
    requires IsReady(b, year) && i < |b.keys|
    requires var day := CakeDay(hs, InYear(year, b.keys[i]));
      && (day in s.vals <==> before != [])
      && (day in s.vals ==> s.vals[day] == SortNames(before))
    ensures var day := CakeDay(hs, InYear(year, b.keys[i]));
      var r := PopulateOne(hs, year, b, i, s);
      day in r.vals && r.vals[day] == SortNames(before + b.vals[b.keys[i]])
  {
    var k := b.keys[i];
    var names := b.vals[k];
    var day := CakeDay(hs, InYear(year, k));
    if day in s.vals {
      SortMerged(before, names);
    } else {
      assert before + names == names;
      SortNamesOfSorted(names);
    }
  }

  /** Sorting a sorted list with more names appended is sorting the lists
      joined. */
  lemma SortMerged(before: seq<string>, names: seq<string>)
    ensures SortNames(SortNames(before) + names) == SortNames(before + names)
  {
    assert multiset(SortNames(before) + names) == multiset(before + names);
    SortNamesPermutation(SortNames(before) + names, before + names);
  }

  // ---------------------------------------------------------------------
  // No name is lost.

  lemma PopulateOneNames(hs: seq<Date>, year: int, b: BirthdayArray, i: nat, s: Stack)
    requires IsReady(b, year) && i < |b.keys|
    ensures AllNames(PopulateOne(hs, year, b, i, s).vals) == AllNames(s.vals) + Elems(b.vals[b.keys[i]])
  {
    var k := b.keys[i];
    var day := CakeDay(hs, InYear(year, k));
    if day in s.vals {
      var v := SortNames(s.vals[day] + b.vals[k]);
      ElemsSortNames(s.vals[day] + b.vals[k]);
      ElemsConcat(s.vals[day], b.vals[k]);
      AllNamesUpdate(s.vals, day, v);
      AllNamesRemove(s.vals, day);
    } else {
      AllNamesUpdate(s.vals, day, b.vals[k]);
      AllNamesAbsent(s.vals, day);
    }
  }

  // ---------------------------------------------------------------------
  // The whole foreach.

  /** A property of the stack that every turn keeps holds after the rest of
      the foreach. */
  lemma {:induction false} PopulateFromKeeps(hs: seq<Date>, year: int, b: BirthdayArray, i: nat, s: Stack,
                                             inv: (nat, Stack) -> bool)
    requires IsReady(b, year) && i <= |b.keys| && inv(i, s)
    requires forall j: nat, t: Stack {:trigger PopulateOne(hs, year, b, j, t)} ::
      i <= j < |b.keys| && inv(j, t) ==> inv(j + 1, PopulateOne(hs, year, b, j, t))
    ensures inv(|b.keys|, PopulateFrom(hs, year, b, i, s))
    decreases |b.keys| - i
  {
    if i < |b.keys| {
      ReadyKey(b, year, i);
      var t := PopulateOne(hs, year, b, i, s);
      assert inv(i + 1, t);
      PopulateFromKeeps(hs, year, b, i + 1, t, inv);
      assert PopulateFrom(hs, year, b, i, s) == PopulateFrom(hs, year, b, i + 1, t);
    }
  }

  /** The i-th key of a ready array is one PopulateOne can take. */
  lemma ReadyKey(b: BirthdayArray, year: int, i: nat)
    requires IsReady(b, year) && i < |b.keys|
    ensures b.keys[i] in b.vals && b.keys[i].MonthDay? && ValidDate(InYear(year, b.keys[i]))
  {
    assert b.keys[i] in b.keys;
  }

  /** The shape and the order of the stack after the first i birthday keys. */
  ghost predicate ShapeInv(hs: seq<Date>, year: int, b: BirthdayArray, i: nat, s: Stack)
    requires IsReady(b, year) && i <= |b.keys|
  {
    IsStack(hs, s) && OrderInv(hs, year, b, i, s)
  }

  lemma PopulateOneShapeInv(hs: seq<Date>, year: int, b: BirthdayArray, i: nat, s: Stack)
    requires IsReady(b, year) && i < |b.keys| && InDayOrder(b.keys) && ShapeInv(hs, year, b, i, s)
    ensures ShapeInv(hs, year, b, i + 1, PopulateOne(hs, year, b, i, s))
  {
    PopulateOneShape(hs, year, b, i, s);
    PopulateOneOrder(hs, year, b, i, s);
  }

  lemma PopulateFromShape(hs: seq<Date>, year: int, b: BirthdayArray)
    requires IsReady(b, year) && InDayOrder(b.keys)
    ensures IsStack(hs, Populate(hs, year, b)) && Chronological(Populate(hs, year, b).keys)
  {
    var inv := (j: nat, t: Stack) => j <= |b.keys| && ShapeInv(hs, year, b, j, t);
    forall j: nat, t: Stack {:trigger PopulateOne(hs, year, b, j, t)} | j < |b.keys| && inv(j, t) ensures inv(j + 1, PopulateOne(hs, year, b, j, t)) {
      PopulateOneShapeInv(hs, year, b, j, t);
    }
    PopulateFromKeeps(hs, year, b, 0, Empty(), inv);
  }

  lemma PopulateFromContents(hs: seq<Date>, year: int, b: BirthdayArray)
    requires IsReady(b, year)
    ensures ContentsInv(hs, year, b, |b.keys|, Populate(hs, year, b))
  {
    var inv := (j: nat, t: Stack) => j <= |b.keys| && ContentsInv(hs, year, b, j, t);
    assert b.keys[..0] == [];
    forall j: nat, t: Stack {:trigger PopulateOne(hs, year, b, j, t)} | j < |b.keys| && inv(j, t) ensures inv(j + 1, PopulateOne(hs, year, b, j, t)) {
      PopulateOneContents(hs, year, b, j, t);
    }
    PopulateFromKeeps(hs, year, b, 0, Empty(), inv);
  }

  /** The names on the stack after the first i birthday keys are theirs. */
  ghost predicate NamesInv(hs: seq<Date>, year: int, b: BirthdayArray, i: nat, s: Stack)
    requires IsReady(b, year) && i <= |b.keys|
  {
    AllNames(s.vals) == ListedNames(b.keys[..i], b.vals)
  }

  lemma PopulateOneNamesInv(hs: seq<Date>, year: int, b: BirthdayArray, i: nat, s: Stack)
    requires IsReady(b, year) && i < |b.keys| && NamesInv(hs, year, b, i, s)
    ensures NamesInv(hs, year, b, i + 1, PopulateOne(hs, year, b, i, s))
  {
    PopulateOneNames(hs, year, b, i, s);
    assert b.keys[..i + 1][..i] == b.keys[..i];
    ListedNamesSnoc(b.keys[..i + 1], b.vals);
  }

  lemma PopulateFromNames(hs: seq<Date>, year: int, b: BirthdayArray)
    requires IsReady(b, year)
    ensures AllNames(Populate(hs, year, b).vals) == AllNames(b.vals)
  {
    var inv := (j: nat, t: Stack) => j <= |b.keys| && NamesInv(hs, year, b, j, t);
    assert b.keys[..0] == [];
    ListedNamesEmpty(b.vals);
    forall j: nat, t: Stack {:trigger PopulateOne(hs, year, b, j, t)} | j < |b.keys| && inv(j, t) ensures inv(j + 1, PopulateOne(hs, year, b, j, t)) {
      PopulateOneNamesInv(hs, year, b, j, t);
    }
    PopulateFromKeeps(hs, year, b, 0, Empty(), inv);
    assert b.keys[..|b.keys|] == b.keys;
    ListedAllNames(b.keys, b.vals);
  }

  /** A name listed under a birthday key is among the names of the
      birthday's cake day. */
  lemma {:induction false} CakeNamesHas(hs: seq<Date>, year: int, keys: seq<BKey>, vals: map<BKey, seq<string>>, k: BKey, x: string)
    requires k in keys && k.MonthDay? && k in vals && x in vals[k] && ValidDate(InYear(year, k))
    ensures x in CakeNames(hs, year, keys, vals, CakeDay(hs, InYear(year, k)))
  {
    var n := |keys| - 1;
    if keys[n] != k {
      assert k in keys[..n] by {
        var j :| 0 <= j < |keys| && keys[j] == k;
        assert keys[..n][j] == k;
      }
      CakeNamesHas(hs, year, keys[..n], vals, k, x);
    }
  }

  /** A name is among those owed cake on d exactly when it is listed under
      a birthday among keys whose cake day is d. */
  lemma {:induction false} CakeNamesElems(hs: seq<Date>, year: int, keys: seq<BKey>, vals: map<BKey, seq<string>>, d: Date, x: string)
    ensures x in CakeNames(hs, year, keys, vals, d) <==>
      exists k :: k in keys && k.MonthDay? && k in vals && ValidDate(InYear(year, k))
                  && CakeDay(hs, InYear(year, k)) == d && x in vals[k]
    decreases |keys|
  {
    if |keys| > 0 {
      var n := |keys| - 1;
      CakeNamesElems(hs, year, keys[..n], vals, d, x);
      assert keys == keys[..n] + [keys[n]];
      assert forall k :: k in keys <==> k in keys[..n] || k == keys[n];
    }
  }

  /** populateCakeDaysStack: every key is a working day holding, sorted,
      exactly the names of the birthdays whose cake day it is; keys come in
      calendar order; no name is lost. */
  lemma PopulateSpec(hs: seq<Date>, year: int, b: BirthdayArray)
    requires IsReady(b, year) && InDayOrder(b.keys)
    ensures IsStack(hs, Populate(hs, year, b))
    ensures Chronological(Populate(hs, year, b).keys)
    ensures forall d :: d in Populate(hs, year, b).vals <==> CakeNames(hs, year, b.keys, b.vals, d) != []
    ensures forall d :: d in Populate(hs, year, b).vals ==>
              Populate(hs, year, b).vals[d] == SortNames(CakeNames(hs, year, b.keys, b.vals, d))
    ensures AllNames(Populate(hs, year, b).vals) == AllNames(b.vals)
  {
    PopulateFromShape(hs, year, b);
    PopulateFromContents(hs, year, b);
    assert b.keys[..|b.keys|] == b.keys;
    PopulateFromNames(hs, year, b);
  }

  /** Every name of a birthday is on that birthday's cake day. */
  lemma PopulateKeepsName(hs: seq<Date>, year: int, b: BirthdayArray, k: BKey, x: string)
    requires IsReady(b, year) && InDayOrder(b.keys) && k in b.vals && x in b.vals[k]
    ensures CakeDay(hs, InYear(year, k)) in Populate(hs, year, b).vals
    ensures x in Populate(hs, year, b).vals[CakeDay(hs, InYear(year, k))]
  {
    var day := CakeDay(hs, InYear(year, k));
    CakeNamesHas(hs, year, b.keys, b.vals, k, x);
    SortNamesHas(CakeNames(hs, year, b.keys, b.vals, day), x);
    PopulateAt(hs, year, b, day);
  }

  /** A day some birthday's names land on is a key holding them, sorted. */
  lemma PopulateAt(hs: seq<Date>, year: int, b: BirthdayArray, d: Date)
    requires IsReady(b, year) && InDayOrder(b.keys) && CakeNames(hs, year, b.keys, b.vals, d) != []
    ensures d in Populate(hs, year, b).vals
    ensures Populate(hs, year, b).vals[d] == SortNames(CakeNames(hs, year, b.keys, b.vals, d))
  {
    PopulateSpec(hs, year, b);
  }
}
