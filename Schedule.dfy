/**
 processCakeDays as a whole: the birthdays array goes through every pass
 in turn, and the export array comes out.  The theorems at the end state
 what the schedule promises for every valid input.
 */
module Schedule {
  import opened Calendar
  import opened Names
  import opened PhpArray
  import opened WorkingDays
  import opened Birthdays
  import opened CakeStack
  import opened Merge
  import opened Health
  import opened Export

  /** The birthdays array as populateCakeDaysStack receives it: years
      stripped, 29 February dealt with, and keys sorted. */
  function Prepared(year: int, b: BirthdayArray): (r: BirthdayArray)
    requires IsInput(b)
    ensures IsReady(r, year) && InDayOrder(r.keys)
    ensures AllNames(r.vals) == AllNames(b.vals)
  {
    StripYearsSpec(b);
    var s := StripYears(b);
    LeapFixSpec(s, year);
    var l := LeapFix(s, year);
    SortBirthdaysSpec(l);
    KSort(l, KeyRank)
  }

  /** The stack populateCakeDaysStack builds. */
  function Built(year: int, b: BirthdayArray): (s: Stack)
    requires IsInput(b)
    ensures IsStack(Holidays(year), s) && Chronological(s.keys)
  {
    var p := Prepared(year, b);
    PopulateSpec(Holidays(year), year, p);
    Populate(Holidays(year), year, p)
  }

  /** The stack after tomorrowCakeTooCheckModiy. */
  function Merged(year: int, b: BirthdayArray): (s: Stack)
    requires IsInput(b)
    ensures IsStack(Holidays(year), s) && Chronological(s.keys)
  {
    MergeSpec(Holidays(year), Built(year, b));
    Merge.Merge(Built(year, b))
  }

  /** The stack once both passes are done, before it is sorted;
      healthCheckModify runs as written, with its skip flag. */
  function Checked(year: int, b: BirthdayArray): (s: Stack)
    requires IsInput(b)
    ensures IsStack(Holidays(year), s)
  {
    HealthAsWrittenSpec(Holidays(year), Merged(year, b));
    HealthAsWritten(Holidays(year), Merged(year, b))
  }

  /** The cake-day stack as prepareExport receives it. */
  function Final(year: int, b: BirthdayArray): (s: Stack)
    requires IsInput(b)
    ensures Valid(s) && s.vals == Checked(year, b).vals
  {
    KSort(Checked(year, b), Ord)
  }

  /** The export array getCakeDays returns. */
  function CakeDays(year: int, b: BirthdayArray): seq<CakeDayRow>
    requires IsInput(b)
  {
    var f := Final(year, b);
    ExportRows(f.keys, f.vals)
  }

  /** The stack once both passes are done, with healthCheckModify in its
      corrected form, without the skip flag. */
  function CheckedCorrected(year: int, b: BirthdayArray): (s: Stack)
    requires IsInput(b)
    ensures IsStack(Holidays(year), s)
  {
    HealthSpec(Holidays(year), Merged(year, b));
    Health.Health(Holidays(year), Merged(year, b))
  }

  /** The corrected stack, sorted. */
  function FinalCorrected(year: int, b: BirthdayArray): (s: Stack)
    requires IsInput(b)
    ensures Valid(s) && s.vals == CheckedCorrected(year, b).vals
  {
    KSort(CheckedCorrected(year, b), Ord)
  }

  /** The export array with the corrected health pass. */
  function CakeDaysCorrected(year: int, b: BirthdayArray): seq<CakeDayRow>
    requires IsInput(b)
  {
    var f := FinalCorrected(year, b);
    ExportRows(f.keys, f.vals)
  }

  // ---------------------------------------------------------------------
  // What each stage does to a single name.

  /** The date a birthday falls on in the target year, with 29 February
      read as 1 March outside leap years. */
  function TargetBirthday(year: int, d: Date): Date
  {
    InYear(year, LeapTarget(year, StripYear(d)))
  }

  /** A birth date whose month and day make a month-day falls on a valid
      date of the target year. */
  lemma TargetBirthdayValid(year: int, d: Date)
    requires ValidMonthDay(d.month, d.day)
    ensures ValidDate(TargetBirthday(year, d))
  {
    if !(StripYear(d) == Feb29 && !IsLeapYear(year)) {
      MonthDayInYear(d.month, d.day, year);
    }
  }

  /** The raw cake day of a birthday in the target year. */
  function OwedDay(year: int, d: Date): Date
    requires ValidMonthDay(d.month, d.day)
  {
    TargetBirthdayValid(year, d);
    CakeDay(Holidays(year), TargetBirthday(year, d))
  }

  /** Once years are stripped, 29 February dealt with and keys sorted, a
      name is under month-day md exactly when one of that name's birthdays
      falls on md in the target year. */
  lemma PreparedHas(year: int, b: BirthdayArray, md: BKey, x: string)
    requires IsInput(b)
    ensures md in Prepared(year, b).vals && x in Prepared(year, b).vals[md] <==>
      exists k :: k in b.vals && LeapTarget(year, StripYear(k.date)) == md && x in b.vals[k]
  {
    StripYearsSpec(b);
    var s := StripYears(b);
    LeapFixSpec(s, year);
    LeapFixHas(s, year, md, x);
    SortBirthdaysSpec(LeapFix(s, year));
    if k :| k in b.vals && LeapTarget(year, StripYear(k.date)) == md && x in b.vals[k] {
      StripYearsHas(b, StripYear(k.date), x);
    }
    if m :| m in s.vals && LeapTarget(year, m) == md && x in s.vals[m] {
      StripYearsHas(b, m, x);
    }
  }

  /** A name is on day d of the stack populateCakeDaysStack builds exactly
      when d is the raw cake day of one of that name's birthdays. */
  lemma BuiltHas(year: int, b: BirthdayArray, d: Date, x: string)
    requires IsInput(b)
    ensures d in Built(year, b).vals && x in Built(year, b).vals[d] <==>
      exists k :: k in b.vals && OwedDay(year, k.date) == d && x in b.vals[k]
  {
    var hs := Holidays(year);
    var p := Prepared(year, b);
    PopulateSpec(hs, year, p);
    var st := Built(year, b);
    CakeNamesElems(hs, year, p.keys, p.vals, d, x);
    if d in st.vals {
      assert x in st.vals[d] <==> x in multiset(CakeNames(hs, year, p.keys, p.vals, d));
    }
    if d in st.vals && x in st.vals[d] {
      var md :| md in p.keys && md.MonthDay? && md in p.vals && ValidDate(InYear(year, md))
                 && CakeDay(hs, InYear(year, md)) == d && x in p.vals[md];
      PreparedHas(year, b, md, x);
    }
    if k :| k in b.vals && OwedDay(year, k.date) == d && x in b.vals[k] {
      var md := LeapTarget(year, StripYear(k.date));
      PreparedHas(year, b, md, x);
      assert md in p.keys && InYear(year, md) == TargetBirthday(year, k.date);
      SortNamesHas(CakeNames(hs, year, p.keys, p.vals, d), x);
    }
  }

  /** The days of the built stack are exactly the raw cake days of the
      birthdays. */
  lemma BuiltDays(year: int, b: BirthdayArray, d: Date)
    requires IsInput(b)
    ensures d in Built(year, b).vals <==> exists k :: k in b.vals && OwedDay(year, k.date) == d
  {
    var st := Built(year, b);
    if d in st.vals {
      BuiltHas(year, b, d, st.vals[d][0]);
    }
    if k :| k in b.vals && OwedDay(year, k.date) == d {
      BuiltHas(year, b, d, b.vals[k][0]);
    }
  }

  /** After the stack is built, every name sits on a day after its birthday. */
  lemma BuiltAfterBirthday(year: int, b: BirthdayArray, k: BKey, x: string)
    requires IsInput(b) && k in b.vals && x in b.vals[k]
    ensures var st := Populate(Holidays(year), year, Prepared(year, b));
      exists c :: c in st.vals && x in st.vals[c] && Ord(TargetBirthday(year, k.date)) < Ord(c)
  {
    var hs := Holidays(year);
    StripYearsSpec(b);
    var s := StripYears(b);
    StripYearsKeepsName(b, k, x);
    var md := StripYear(k.date);
    LeapFixSpec(s, year);
    LeapFixKeepsName(s, year, md, x);
    var l := LeapFix(s, year);
    var m := LeapTarget(year, md);
    SortBirthdaysSpec(l);
    var p := Prepared(year, b);
    assert p.vals == l.vals;
    PopulateKeepsName(hs, year, p, m, x);
    CakeDayProperties(hs, InYear(year, m));
  }

  /** Both passes only move names to later days. */
  lemma CheckedAfterBirthday(year: int, b: BirthdayArray, k: BKey, x: string)
    requires IsInput(b) && k in b.vals && x in b.vals[k]
    ensures exists e :: e in Checked(year, b).vals && x in Checked(year, b).vals[e]
                        && Ord(TargetBirthday(year, k.date)) < Ord(e)
  {
    var hs := Holidays(year);
    var st := Populate(hs, year, Prepared(year, b));
    BuiltAfterBirthday(year, b, k, x);
    var c :| c in st.vals && x in st.vals[c] && Ord(TargetBirthday(year, k.date)) < Ord(c);
    PopulateSpec(hs, year, Prepared(year, b));
    MergeKeepsName(hs, st, c, x);
    MergeSpec(hs, st);
    var m := Merge.Merge(st);
    var d := if c in m.vals then c else Next(c);
    HealthAsWrittenKeepsName(hs, m, d, x);
  }

  // ---------------------------------------------------------------------
  // The schedule.

  /** ksort leaves the stack's keys in strictly ascending date order. */
  lemma FinalInOrder(year: int, b: BirthdayArray)
    requires IsInput(b)
    ensures Chronological(Final(year, b).keys)
  {
    var f := Final(year, b);
    forall x, y | x in f.keys && y in f.keys && Ord(x) == Ord(y) ensures x == y {
      assert x in f.vals && y in f.vals;
      OrdInjective(x, y);
    }
    SortedDistinctIsStrict(f.keys, Ord);
    assert StrictlyRankSorted(f.keys, Ord);
  }

  /** The export array lists the cake days in strictly ascending date
      order; each is a working day of the target year's calendar with a
      sorted, non-empty list of names and exactly one cake, small for one
      name and large for more. */
  lemma CakeDaysShape(year: int, b: BirthdayArray)
    requires IsInput(b)
    ensures var rows := CakeDays(year, b);
      && (forall i, j :: 0 <= i < j < |rows| ==> Ord(rows[i].date) < Ord(rows[j].date))
      && (forall i :: 0 <= i < |rows| ==>
            && ValidDate(rows[i].date) && IsWorkingDay(Holidays(year), rows[i].date)
            && |rows[i].names| > 0 && Sorted(rows[i].names)
            && 0 <= rows[i].small <= 1 && 0 <= rows[i].large <= 1 && rows[i].small + rows[i].large == 1
            && (rows[i].large == 1 <==> |rows[i].names| > 1))
  {
    FinalInOrder(year, b);
    var f := Final(year, b);
    assert IsStack(Holidays(year), f);
    assert CakeDays(year, b) == ExportRows(f.keys, f.vals);
    RowsShape(Holidays(year), f);
  }

  /** The entries of a shaped stack in calendar order. */
  lemma RowsShape(hs: seq<Date>, s: Stack)
    requires IsStack(hs, s) && Chronological(s.keys)
    ensures var rows := ExportRows(s.keys, s.vals);
      && (forall i, j :: 0 <= i < j < |rows| ==> Ord(rows[i].date) < Ord(rows[j].date))
      && (forall i :: 0 <= i < |rows| ==>
            && ValidDate(rows[i].date) && IsWorkingDay(hs, rows[i].date)
            && |rows[i].names| > 0 && Sorted(rows[i].names)
            && 0 <= rows[i].small <= 1 && 0 <= rows[i].large <= 1 && rows[i].small + rows[i].large == 1
            && (rows[i].large == 1 <==> |rows[i].names| > 1))
  {
    var rows := ExportRows(s.keys, s.vals);
    forall i | 0 <= i < |rows| ensures rows[i].date == s.keys[i] && s.keys[i] in s.vals {
    }
  }

  /** With the corrected health pass, no cake day of the schedule is the
      day after another. */
  lemma CakeDaysApart(year: int, b: BirthdayArray)
    requires IsInput(b)
    ensures var rows := CakeDaysCorrected(year, b);
      forall i, j :: 0 <= i < |rows| && 0 <= j < |rows| ==> rows[j].date != Next(rows[i].date)
  {
    var hs := Holidays(year);
    var st := Populate(hs, year, Prepared(year, b));
    PopulateSpec(hs, year, Prepared(year, b));
    MergeSpec(hs, st);
    HealthSpec(hs, Merge.Merge(st));
    var f := FinalCorrected(year, b);
    var rows := CakeDaysCorrected(year, b);
    forall i, j | 0 <= i < |rows| && 0 <= j < |rows| ensures rows[j].date != Next(rows[i].date) {
      var x, y := f.keys[i], f.keys[j];
      assert x in f.vals && y in f.vals;
      PrevNext(x);
    }
  }

  /** The schedule names exactly the people of the input. */
  lemma CakeDaysNames(year: int, b: BirthdayArray)
    requires IsInput(b)
    ensures var rows := CakeDays(year, b);
      forall x :: (exists i :: 0 <= i < |rows| && x in rows[i].names) <==> x in AllNames(b.vals)
  {
    var hs := Holidays(year);
    var st := Populate(hs, year, Prepared(year, b));
    PopulateSpec(hs, year, Prepared(year, b));
    MergeSpec(hs, st);
    HealthAsWrittenSpec(hs, Merge.Merge(st));
    var f := Final(year, b);
    var rows := CakeDays(year, b);
    assert AllNames(f.vals) == AllNames(b.vals);
    forall x ensures (exists i :: 0 <= i < |rows| && x in rows[i].names) <==> x in AllNames(f.vals) {
      if x in AllNames(f.vals) {
        var d :| d in f.vals && x in f.vals[d];
        var i :| 0 <= i < |f.keys| && f.keys[i] == d;
        assert x in rows[i].names;
      }
      if i :| 0 <= i < |rows| && x in rows[i].names {
        assert f.keys[i] in f.vals;
      }
    }
  }

  /** When no name is under two birth dates, none is on two days of the
      built stack: a name's days are the cake days of its birth dates. */
  lemma BuiltDisjoint(year: int, b: BirthdayArray)
    requires IsInput(b) && Disjoint(b.vals)
    ensures Disjoint(Built(year, b).vals)
  {
    var st := Built(year, b);
    forall d1, d2, x | d1 in st.vals && d2 in st.vals && x in st.vals[d1] && x in st.vals[d2] ensures d1 == d2 {
      BuiltHas(year, b, d1, x);
      BuiltHas(year, b, d2, x);
      var k1 :| k1 in b.vals && OwedDay(year, k1.date) == d1 && x in b.vals[k1];
      var k2 :| k2 in b.vals && OwedDay(year, k2.date) == d2 && x in b.vals[k2];
      assert k1 == k2;
    }
  }

  /** When no name is under two birth dates, every name is in at most one
      entry of the export array. */
  lemma CakeDaysOnce(year: int, b: BirthdayArray)
    requires IsInput(b) && Disjoint(b.vals)
    ensures var rows := CakeDays(year, b);
      forall i, j, x :: 0 <= i < |rows| && 0 <= j < |rows| && x in rows[i].names && x in rows[j].names ==> i == j
  {
    var hs := Holidays(year);
    BuiltDisjoint(year, b);
    MergeDisjoint(hs, Built(year, b));
    HealthAsWrittenDisjoint(hs, Merged(year, b));
    var f := Final(year, b);
    assert Disjoint(f.vals);
    RowsOnce(f);
  }

  /** The entries of a stack with names kept apart share no name. */
  lemma RowsOnce(f: Stack)
    requires Valid(f) && Disjoint(f.vals)
    ensures var rows := ExportRows(f.keys, f.vals);
      forall i, j, x :: 0 <= i < |rows| && 0 <= j < |rows| && x in rows[i].names && x in rows[j].names ==> i == j
  {
    var rows := ExportRows(f.keys, f.vals);
    forall i, j, x | 0 <= i < |rows| && 0 <= j < |rows| && x in rows[i].names && x in rows[j].names ensures i == j {
      assert f.keys[i] in f.vals && f.keys[j] in f.vals;
      assert f.keys[i] == f.keys[j];
    }
  }

  /** Everybody gets cake on a working day after their birthday in the
      target year. */
  lemma CakeAfterBirthday(year: int, b: BirthdayArray, k: BKey, x: string)
    requires IsInput(b) && k in b.vals && x in b.vals[k]
    ensures var rows := CakeDays(year, b);
      exists i :: 0 <= i < |rows| && x in rows[i].names && Ord(TargetBirthday(year, k.date)) < Ord(rows[i].date)
  {
    CheckedAfterBirthday(year, b, k, x);
    var f := Final(year, b);
    assert CakeDays(year, b) == ExportRows(f.keys, f.vals);
    RowsAfter(f, TargetBirthday(year, k.date), x);
  }

  /** A name on some day after t is in some entry dated after t. */
  lemma RowsAfter(f: Stack, t: Date, x: string)
    requires Valid(f) && exists e :: e in f.vals && x in f.vals[e] && Ord(t) < Ord(e)
    ensures var rows := ExportRows(f.keys, f.vals);
      exists i :: 0 <= i < |rows| && x in rows[i].names && Ord(t) < Ord(rows[i].date)
  {
    var e :| e in f.vals && x in f.vals[e] && Ord(t) < Ord(e);
    ExportRowsHas(f.keys, f.vals, e, x);
  }
}
