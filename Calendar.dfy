/**
 A proleptic Gregorian calendar: valid dates, the leap-year rule, the
 successor and predecessor of a date, the day of the week, and the order
 in which zero-padded "YYYY-MM-DD" keys sort.
 */
module Calendar {

  datatype Date = Date(year: int, month: int, day: int)

  /** Divisible by 4, and not by 100 unless also by 400. */
  predicate IsLeapYear(y: int)
  {
    y % 4 == 0 && (y % 100 != 0 || y % 400 == 0)
  }

  function DaysInMonth(y: int, m: int): (n: int)
    ensures 28 <= n <= 31
    ensures m == 2 ==> (n == 29 <==> IsLeapYear(y))
  {
    if m == 2 then (if IsLeapYear(y) then 29 else 28)
    else if m == 4 || m == 6 || m == 9 || m == 11 then 30
    else 31
  }

  predicate ValidDate(d: Date)
  {
    1 <= d.month <= 12 && 1 <= d.day <= DaysInMonth(d.year, d.month)
  }

  /** The integer whose digits are the zero-padded key "YYYY-MM-DD" without
      its dashes; comparing these is comparing the keys as strings. */
  function Ord(d: Date): int
  {
    d.year * 10000 + d.month * 100 + d.day
  }

  predicate Before(a: Date, b: Date)
  {
    Ord(a) < Ord(b)
  }

  /** The next calendar day (PHP: modify("+1 day")). */
  function Next(d: Date): (r: Date)
    ensures ValidDate(d) ==> ValidDate(r) && Ord(d) < Ord(r)
  {
    if d.day < DaysInMonth(d.year, d.month) then Date(d.year, d.month, d.day + 1)
    else if d.month < 12 then Date(d.year, d.month + 1, 1)
    else Date(d.year + 1, 1, 1)
  }

  /** The previous calendar day (PHP: modify("-1 day")). */
  function Prev(d: Date): (r: Date)
    ensures ValidDate(d) ==> ValidDate(r) && Ord(r) < Ord(d)
  {
    if d.day > 1 then Date(d.year, d.month, d.day - 1)
    else if d.month > 1 then Date(d.year, d.month - 1, DaysInMonth(d.year, d.month - 1))
    else Date(d.year - 1, 12, 31)
  }

  lemma OrdInjective(a: Date, b: Date)
    requires ValidDate(a) && ValidDate(b) && Ord(a) == Ord(b)
    ensures a == b
  {
    assert a.month * 100 + a.day < 10000 && b.month * 100 + b.day < 10000;
    assert a.year == b.year;
  }

  /** No valid date lies strictly between a date and its successor. */
  lemma NextIsImmediate(d: Date, x: Date)
    requires ValidDate(d) && ValidDate(x) && Ord(d) < Ord(x)
    ensures Ord(Next(d)) <= Ord(x)
  {
    assert d.month * 100 + d.day < 10000 && x.month * 100 + x.day < 10000;
    if x.year == d.year {
      assert x.month * 100 + x.day > d.month * 100 + d.day;
    }
  }

  /** No valid date lies strictly between a date's predecessor and the date. */
  lemma PrevIsImmediate(d: Date, x: Date)
    requires ValidDate(d) && ValidDate(x) && Ord(x) < Ord(d)
    ensures Ord(x) <= Ord(Prev(d))
  {
    assert d.month * 100 + d.day < 10000 && x.month * 100 + x.day < 10000;
    if x.year == d.year {
      assert x.month * 100 + x.day < d.month * 100 + d.day;
    }
  }

  lemma PrevNext(d: Date)
    requires ValidDate(d)
    ensures Prev(Next(d)) == d && Next(Prev(d)) == d
  {
  }

  // ---------------------------------------------------------------------
  // Day numbers and weekdays.  Day 0 is 0001-01-01, a Monday.

  /** Days before 1 January of year y.  Dafny's division by a positive
      constant rounds down, so this holds for every year. */
  function DaysBeforeYear(y: int): int
  {
    365 * (y - 1) + (y - 1) / 4 - (y - 1) / 100 + (y - 1) / 400
  }

  function DaysBeforeMonth(y: int, m: int): int
  {
    var leap := if IsLeapYear(y) && m > 2 then 1 else 0;
    leap + (if m <= 1 then 0 else if m == 2 then 31 else if m == 3 then 59
            else if m == 4 then 90 else if m == 5 then 120 else if m == 6 then 151
            else if m == 7 then 181 else if m == 8 then 212 else if m == 9 then 243
            else if m == 10 then 273 else if m == 11 then 304 else 334)
  }

  function DayNumber(d: Date): int
  {
    DaysBeforeYear(d.year) + DaysBeforeMonth(d.year, d.month) + d.day - 1
  }

  /** 0 = Monday, ..., 5 = Saturday, 6 = Sunday. */
  function DayOfWeek(d: Date): (w: int)
    ensures 0 <= w < 7
  {
    DayNumber(d) % 7
  }

  predicate IsWeekend(d: Date)
  {
    DayOfWeek(d) == 5 || DayOfWeek(d) == 6
  }

  lemma YearLength(y: int)
    ensures DaysBeforeYear(y + 1) - DaysBeforeYear(y) == if IsLeapYear(y) then 366 else 365
  {
    assert y / 4 - (y - 1) / 4 == if y % 4 == 0 then 1 else 0;
    assert y / 100 - (y - 1) / 100 == if y % 100 == 0 then 1 else 0;
    assert y / 400 - (y - 1) / 400 == if y % 400 == 0 then 1 else 0;
  }

  lemma MonthStep(y: int, m: int)
    requires 1 <= m < 12
    ensures DaysBeforeMonth(y, m + 1) == DaysBeforeMonth(y, m) + DaysInMonth(y, m)
  {
  }

  lemma WeekdayStep(k: int)
    ensures (k + 1) % 7 == (k % 7 + 1) % 7
  {
  }

  lemma NextDayNumber(d: Date)
    requires ValidDate(d)
    ensures DayNumber(Next(d)) == DayNumber(d) + 1
    ensures DayOfWeek(Next(d)) == (DayOfWeek(d) + 1) % 7
  {
    var n := Next(d);
    if d.day < DaysInMonth(d.year, d.month) {
      assert n == Date(d.year, d.month, d.day + 1);
    } else if d.month < 12 {
      assert n == Date(d.year, d.month + 1, 1);
      MonthStep(d.year, d.month);
    } else {
      assert n == Date(d.year + 1, 1, 1);
      YearLength(d.year);
    }
    WeekdayStep(DayNumber(d));
  }
}
