/**
 The working-day oracle of the cake-day rules: the office is closed on
 Saturdays, Sundays and the listed holiday dates, and open every other day.
 */
module WorkingDays {
  import opened Calendar

  /** The closures listed for target year y: New Year's Day, Christmas Day
      and Boxing Day of y, and New Year's Day of y + 1.  A holiday falling on
      a weekend is not moved. */
  function Holidays(y: int): (hs: seq<Date>)
    ensures |hs| == 4
    ensures forall h :: h in hs ==> ValidDate(h)
  {
    [Date(y, 1, 1), Date(y, 12, 25), Date(y, 12, 26), Date(y + 1, 1, 1)]
  }

  predicate IsWorkingDay(hs: seq<Date>, d: Date)
  {
    !IsWeekend(d) && d !in hs
  }

  /** The closures of Holidays(y), spelled out. */
  lemma HolidayClosures(y: int, d: Date)
    ensures !IsWorkingDay(Holidays(y), d) <==>
      IsWeekend(d) || d == Date(y, 1, 1) || d == Date(y, 12, 25) || d == Date(y, 12, 26) || d == Date(y + 1, 1, 1)
  {
  }

  /** An upper bound of the keys of the holidays. */
  function MaxOrd(hs: seq<Date>): (m: int)
    ensures forall h :: h in hs ==> Ord(h) <= m
  {
    if |hs| == 0 then 0
    else
      var m := MaxOrd(hs[1..]);
      assert forall h :: h in hs ==> h == hs[0] || h in hs[1..];
      if Ord(hs[0]) > m then Ord(hs[0]) else m
  }

  /** How far the search for a working day can still go: up to the last
      holiday, then at most over one weekend. */
  function SearchBound(hs: seq<Date>, x: Date): nat
  {
    if Ord(x) <= MaxOrd(hs) then MaxOrd(hs) - Ord(x) + 3
    else if DayOfWeek(x) == 5 then 2
    else if DayOfWeek(x) == 6 then 1
    else 0
  }

  /** The first working day on or after x. */
  function FirstWorkingFrom(hs: seq<Date>, x: Date): (r: Date)
    requires ValidDate(x)
    ensures ValidDate(r) && IsWorkingDay(hs, r) && Ord(x) <= Ord(r)
    decreases SearchBound(hs, x)
  {
    if IsWorkingDay(hs, x) then x
    else
      NextDayNumber(x);
      FirstWorkingFrom(hs, Next(x))
  }

  lemma {:induction false} FirstWorkingFromIsFirst(hs: seq<Date>, x: Date, y: Date)
    requires ValidDate(x) && ValidDate(y)
    requires Ord(x) <= Ord(y) < Ord(FirstWorkingFrom(hs, x))
    ensures !IsWorkingDay(hs, y)
    decreases SearchBound(hs, x)
  {
    if y != x {
      assert !IsWorkingDay(hs, x);
      NextDayNumber(x);
      assert Ord(x) < Ord(y) by { OrdInjectiveContra(x, y); }
      NextIsImmediate(x, y);
      FirstWorkingFromIsFirst(hs, Next(x), y);
    }
  }

  lemma OrdInjectiveContra(a: Date, b: Date)
    requires ValidDate(a) && ValidDate(b) && a != b
    ensures Ord(a) != Ord(b)
  {
    if Ord(a) == Ord(b) { OrdInjective(a, b); }
  }

  /** getNextWorkingDay: the first working day strictly after d. */
  function NextWorkingDay(hs: seq<Date>, d: Date): (r: Date)
    requires ValidDate(d)
    ensures ValidDate(r) && IsWorkingDay(hs, r) && Ord(d) < Ord(r)
  {
    FirstWorkingFrom(hs, Next(d))
  }

  /** Every date strictly between d and its next working day is a closure. */
  lemma NextWorkingDaySkipsOnlyClosures(hs: seq<Date>, d: Date, y: Date)
    requires ValidDate(d) && ValidDate(y)
    requires Ord(d) < Ord(y) < Ord(NextWorkingDay(hs, d))
    ensures !IsWorkingDay(hs, y)
  {
    NextIsImmediate(d, y);
    FirstWorkingFromIsFirst(hs, Next(d), y);
  }

  /** The three properties above determine the next working day. */
  lemma NextWorkingDayUnique(hs: seq<Date>, d: Date, w: Date)
    requires ValidDate(d) && ValidDate(w) && IsWorkingDay(hs, w) && Ord(d) < Ord(w)
    requires forall y :: ValidDate(y) && Ord(d) < Ord(y) < Ord(w) ==> !IsWorkingDay(hs, y)
    ensures w == NextWorkingDay(hs, d)
  {
    var r := NextWorkingDay(hs, d);
    if Ord(w) < Ord(r) {
      NextWorkingDaySkipsOnlyClosures(hs, d, w);
    } else if Ord(r) == Ord(w) {
      OrdInjective(w, r);
    }
  }

  /** A working day after d is never before d's next working day. */
  lemma NextWorkingDayIsLeast(hs: seq<Date>, d: Date, w: Date)
    requires ValidDate(d) && ValidDate(w) && IsWorkingDay(hs, w) && Ord(d) < Ord(w)
    ensures Ord(NextWorkingDay(hs, d)) <= Ord(w)
  {
    if Ord(w) < Ord(NextWorkingDay(hs, d)) {
      NextWorkingDaySkipsOnlyClosures(hs, d, w);
    }
  }

  lemma NextWorkingDayMonotonic(hs: seq<Date>, a: Date, b: Date)
    requires ValidDate(a) && ValidDate(b) && Ord(a) <= Ord(b)
    ensures Ord(NextWorkingDay(hs, a)) <= Ord(NextWorkingDay(hs, b))
  {
    NextWorkingDayIsLeast(hs, a, NextWorkingDay(hs, b));
  }

  /** getNextNextWorkingDay. */
  function NextNextWorkingDay(hs: seq<Date>, d: Date): (r: Date)
    requires ValidDate(d)
    ensures ValidDate(r) && IsWorkingDay(hs, r)
    ensures Ord(NextWorkingDay(hs, d)) < Ord(r)
  {
    NextWorkingDay(hs, NextWorkingDay(hs, d))
  }

  /** The raw cake day for a birthday: the next working day, or the one
      after it when the office is closed on the birthday itself. */
  function CakeDay(hs: seq<Date>, b: Date): Date
    requires ValidDate(b)
  {
    if IsWorkingDay(hs, b) then NextWorkingDay(hs, b) else NextNextWorkingDay(hs, b)
  }

  /** The cake day is a working day after the birthday, with exactly one
      working day skipped when the office is closed on the birthday. */
  lemma CakeDayProperties(hs: seq<Date>, b: Date)
    requires ValidDate(b)
    ensures ValidDate(CakeDay(hs, b)) && IsWorkingDay(hs, CakeDay(hs, b))
    ensures Ord(b) < Ord(CakeDay(hs, b))
    ensures IsWorkingDay(hs, b) ==> forall y :: ValidDate(y) && Ord(b) < Ord(y) < Ord(CakeDay(hs, b)) ==> !IsWorkingDay(hs, y)
    ensures !IsWorkingDay(hs, b) ==> Ord(NextWorkingDay(hs, b)) < Ord(CakeDay(hs, b))
  {
    forall y | ValidDate(y) && Ord(b) < Ord(y) < Ord(CakeDay(hs, b)) && IsWorkingDay(hs, b)
      ensures !IsWorkingDay(hs, y)
    {
      NextWorkingDaySkipsOnlyClosures(hs, b, y);
    }
  }

  /** Later birthdays never get earlier cake days. */
  lemma CakeDayMonotonic(hs: seq<Date>, a: Date, b: Date)
    requires ValidDate(a) && ValidDate(b) && Ord(a) <= Ord(b)
    ensures Ord(CakeDay(hs, a)) <= Ord(CakeDay(hs, b))
  {
    var na, nb := NextWorkingDay(hs, a), NextWorkingDay(hs, b);
    NextWorkingDayMonotonic(hs, a, b);
    if IsWorkingDay(hs, a) && !IsWorkingDay(hs, b) {
      assert Ord(na) <= Ord(nb) < Ord(CakeDay(hs, b));
    } else if !IsWorkingDay(hs, a) && IsWorkingDay(hs, b) {
      if a != b {
        assert Ord(a) < Ord(b) by { OrdInjectiveContra(a, b); }
        NextWorkingDayIsLeast(hs, a, b);
        NextWorkingDayMonotonic(hs, na, b);
      }
    } else if !IsWorkingDay(hs, a) && !IsWorkingDay(hs, b) {
      NextWorkingDayMonotonic(hs, na, nb);
    }
  }
}
