/**
 The text the command-line program reads and writes: fields trimmed of
 surrounding white space, dates in "YYYY-MM-DD" form, and lists of names
 joined by single spaces.
 */
module Text {
  import opened Calendar

  datatype Option<T> = None | Some(value: T)

  // ---------------------------------------------------------------------
  // trim()

  /** The characters trim() removes by default: space, tab, line feed,
      carriage return, NUL and vertical tab. */
  predicate IsSpace(c: char)
  {
    c == ' ' || c == '\t' || c == '\n' || c == '\r' || c == '\0' || c == '\U{000B}'
  }

  /** The index of the first character at or after i that is not white
      space (or the end). */
  function SkipSpaces(s: string, i: nat): (n: nat)
    requires i <= |s|
    ensures i <= n <= |s| && (n < |s| ==> !IsSpace(s[n]))
    ensures forall j :: i <= j < n ==> IsSpace(s[j])
    decreases |s| - i
  {
    if i < |s| && IsSpace(s[i]) then SkipSpaces(s, i + 1) else i
  }

  /** The index just past the last character before j that is not white
      space (or 0). */
  function BackSpaces(s: string, j: nat): (m: nat)
    requires j <= |s|
    ensures m <= j && (m > 0 ==> !IsSpace(s[m - 1]))
    ensures forall k :: m <= k < j ==> IsSpace(s[k])
  {
    if j > 0 && IsSpace(s[j - 1]) then BackSpaces(s, j - 1) else j
  }

  /** ltrim: the text after the leading white space. */
  function TrimLeft(s: string): (r: string)
    ensures |r| > 0 ==> !IsSpace(r[0])
  {
    s[SkipSpaces(s, 0)..]
  }

  /** rtrim: the text before the trailing white space. */
  function TrimRight(s: string): (r: string)
    ensures |r| > 0 ==> !IsSpace(r[|r| - 1])
  {
    s[..BackSpaces(s, |s|)]
  }

  /** trim($s): the part of s between its leading and its trailing white
      space; it neither starts nor ends with white space. */
  function Trim(s: string): (r: string)
    ensures |r| > 0 ==> !IsSpace(r[0]) && !IsSpace(r[|r| - 1])
  {
    TrimRight(TrimLeft(s))
  }

  /** Trim cuts only white space off the ends: the trimmed text sits in s
      after its leading white space, and only white space follows it. */
  lemma TrimIsInfix(s: string)
    ensures var r := Trim(s); var a := SkipSpaces(s, 0);
      && a + |r| <= |s| && r == s[a..a + |r|]
      && (forall j :: 0 <= j < a ==> IsSpace(s[j]))
      && (forall j :: a + |r| <= j < |s| ==> IsSpace(s[j]))
  {
    var a := SkipSpaces(s, 0);
    var l := s[a..];
    var b := BackSpaces(l, |l|);
    assert Trim(s) == l[..b];
    forall j | a + b <= j < |s| ensures IsSpace(s[j]) {
      assert s[j] == l[j - a];
    }
  }

  /** Trimming twice is trimming once. */
  lemma TrimIdempotent(s: string)
    ensures Trim(Trim(s)) == Trim(s)
  {
    var r := Trim(s);
    if |r| > 0 {
      assert TrimLeft(r) == r;
      assert TrimRight(r) == r;
    }
  }

  // ---------------------------------------------------------------------
  // Dates as "YYYY-MM-DD"

  predicate IsDigit(c: char)
  {
    '0' <= c <= '9'
  }

  function Digit(n: int): (c: char)
    requires 0 <= n < 10
    ensures IsDigit(c)
  {
    ('0' as int + n) as char
  }

  function DigitValue(c: char): (n: int)
    requires IsDigit(c)
    ensures 0 <= n < 10 && Digit(n) == c
  {
    c as int - '0' as int
  }

  predicate AllDigits(s: string)
  {
    forall i :: 0 <= i < |s| ==> IsDigit(s[i])
  }

  function Number2(s: string): (n: int)
    requires |s| == 2 && AllDigits(s)
    ensures 0 <= n < 100
  {
    10 * DigitValue(s[0]) + DigitValue(s[1])
  }

  function Number4(s: string): (n: int)
    requires |s| == 4 && AllDigits(s)
    ensures 0 <= n < 10000
  {
    1000 * DigitValue(s[0]) + 100 * DigitValue(s[1]) + 10 * DigitValue(s[2]) + DigitValue(s[3])
  }

  function Pad2(n: int): (s: string)
    requires 0 <= n < 100
    ensures |s| == 2 && AllDigits(s)
  {
    [Digit(n / 10), Digit(n % 10)]
  }

  function Pad4(n: int): (s: string)
    requires 0 <= n < 10000
    ensures |s| == 4 && AllDigits(s)
  {
    [Digit(n / 10 / 10 / 10), Digit(n / 10 / 10 % 10), Digit(n / 10 % 10), Digit(n % 10)]
  }

  /** The decimal digits of n, without leading zeros. */
  function Decimal(n: nat): (s: string)
    ensures |s| > 0 && AllDigits(s)
  {
    if n < 10 then [Digit(n)] else Decimal(n / 10) + [Digit(n % 10)]
  }

  /** format("Y"): at least four digits, with a minus sign before the
      years before year 0. */
  function FormatYear(y: int): (s: string)
    ensures 0 <= y < 10000 ==> |s| == 4 && AllDigits(s)
    ensures y >= 0 ==> AllDigits(s)
    ensures y < 0 ==> |s| > 0 && s[0] == '-' && AllDigits(s[1..])
  {
    if y < 0 then "-" + Unsigned(-y) else Unsigned(y)
  }

  function Unsigned(n: nat): (s: string)
    ensures AllDigits(s) && (n < 10000 ==> |s| == 4)
  {
    if n < 10000 then Pad4(n) else Decimal(n)
  }

  /** format("Y-m-d"). */
  function FormatDate(d: Date): (s: string)
    requires ValidDate(d)
  {
    FormatYear(d.year) + "-" + Pad2(d.month) + "-" + Pad2(d.day)
  }

  /** A birthday field read as a date: four digits, a dash, two digits, a
      dash and two digits that name a real calendar day. */
  function ParseDate(s: string): (r: Option<Date>)
    ensures r.Some? ==> ValidDate(r.value) && 0 <= r.value.year < 10000
  {
    if |s| == 10 && s[4] == '-' && s[7] == '-' && AllDigits(s[..4]) && AllDigits(s[5..7]) && AllDigits(s[8..]) then
      var d := Date(Number4(s[..4]), Number2(s[5..7]), Number2(s[8..]));
      if ValidDate(d) then Some(d) else None
    else None
  }

  lemma Number2Pad2(n: int)
    requires 0 <= n < 100
    ensures Number2(Pad2(n)) == n
  {
  }

  lemma Number4Pad4(n: int)
    requires 0 <= n < 10000
    ensures Number4(Pad4(n)) == n
  {
    var q1 := n / 10;
    var q2 := q1 / 10;
    assert n == 10 * q1 + n % 10;
    assert q1 == 10 * q2 + q1 % 10;
    assert q2 == 10 * (q2 / 10) + q2 % 10;
  }

  /** Dividing by ten drops the last decimal digit. */
  lemma DivTen(x: int, d: int)
    requires 0 <= d < 10
    ensures (10 * x + d) / 10 == x && (10 * x + d) % 10 == d
  {
  }

  lemma Pad2Number2(s: string)
    requires |s| == 2 && AllDigits(s)
    ensures Pad2(Number2(s)) == s
  {
    var a, b := DigitValue(s[0]), DigitValue(s[1]);
    assert (10 * a + b) / 10 == a && (10 * a + b) % 10 == b;
  }

  lemma Pad4Number4(s: string)
    requires |s| == 4 && AllDigits(s)
    ensures Pad4(Number4(s)) == s
  {
    var a, b, c, d := DigitValue(s[0]), DigitValue(s[1]), DigitValue(s[2]), DigitValue(s[3]);
    var n := Number4(s);
    DivTen(100 * a + 10 * b + c, d);
    DivTen(10 * a + b, c);
    DivTen(a, b);
    assert n / 10 / 10 / 10 == a;
  }

  /** Every date of a four-digit year reads back from its text. */
  lemma ParseFormat(d: Date)
    requires ValidDate(d) && 0 <= d.year < 10000
    ensures ParseDate(FormatDate(d)) == Some(d)
  {
    var s := FormatDate(d);
    assert s[..4] == Pad4(d.year) && s[5..7] == Pad2(d.month) && s[8..] == Pad2(d.day);
    Number4Pad4(d.year);
    Number2Pad2(d.month);
    Number2Pad2(d.day);
  }

  /** A birthday field that reads as a date is that date's text, so two
      fields name the same date exactly when they are the same text. */
  lemma FormatParse(s: string)
    requires ParseDate(s).Some?
    ensures FormatDate(ParseDate(s).value) == s
  {
    Pad4Number4(s[..4]);
    Pad2Number2(s[5..7]);
    Pad2Number2(s[8..]);
    assert s == s[..4] + "-" + s[5..7] + "-" + s[8..];
  }

  /** Two valid dates with the same text are the same date. */
  lemma FormatDateInjective(a: Date, b: Date)
    requires ValidDate(a) && ValidDate(b) && FormatDate(a) == FormatDate(b)
    ensures a == b
  {
    var s := FormatDate(a);
    assert s == FormatYear(a.year) + "-" + Pad2(a.month) + "-" + Pad2(a.day);
    assert s == FormatYear(b.year) + "-" + Pad2(b.month) + "-" + Pad2(b.day);
    var n := |s|;
    assert s[n - 5..n - 3] == Pad2(a.month) == Pad2(b.month);
    assert s[n - 2..] == Pad2(a.day) == Pad2(b.day);
    Number2Pad2(a.month);
    Number2Pad2(b.month);
    Number2Pad2(a.day);
    Number2Pad2(b.day);
    assert FormatYear(a.year) == s[..n - 6] == FormatYear(b.year);
    FormatYearInjective(a.year, b.year);
  }

  lemma FormatYearInjective(x: int, y: int)
    requires FormatYear(x) == FormatYear(y)
    ensures x == y
  {
    if x < 0 && y < 0 {
      assert Unsigned(-x) == FormatYear(x)[1..] == Unsigned(-y);
      UnsignedInjective(-x, -y);
    } else if x >= 0 && y >= 0 {
      UnsignedInjective(x, y);
    }
  }

  lemma UnsignedInjective(x: nat, y: nat)
    requires Unsigned(x) == Unsigned(y)
    ensures x == y
  {
    if x < 10000 && y < 10000 {
      Number4Pad4(x);
      Number4Pad4(y);
    } else if x >= 10000 && y >= 10000 {
      DecimalInjective(x, y);
    } else if x < 10000 {
      DecimalLong(y);
    } else {
      DecimalLong(x);
    }
  }

  lemma {:induction false} DecimalLong(n: nat)
    requires n >= 10000
    ensures |Decimal(n)| > 4
  {
    if n >= 100000 {
      DecimalLong(n / 10);
    } else {
      var a, b, c, d := n / 10, n / 10 / 10, n / 10 / 10 / 10, n / 10 / 10 / 10 / 10;
      assert 1 <= d < 10;
      assert |Decimal(n)| == |Decimal(a)| + 1;
      assert |Decimal(a)| == |Decimal(b)| + 1;
      assert |Decimal(b)| == |Decimal(c)| + 1;
      assert |Decimal(c)| == |Decimal(d)| + 1;
    }
  }

  lemma {:induction false} DecimalInjective(x: nat, y: nat)
    requires Decimal(x) == Decimal(y)
    ensures x == y
  {
    var s := Decimal(x);
    if x < 10 && y < 10 {
      assert DigitValue(s[0]) == x && DigitValue(s[0]) == y;
    } else if x >= 10 && y >= 10 {
      var n := |s| - 1;
      assert Decimal(x / 10) == s[..n] == Decimal(y / 10);
      DecimalInjective(x / 10, y / 10);
      assert DigitValue(s[n]) == x % 10 && DigitValue(s[n]) == y % 10;
    } else {
      assert false;
    }
  }

  // ---------------------------------------------------------------------
  // implode(" ", $names)

  function Join(names: seq<string>): string
  {
    if |names| == 0 then "" else if |names| == 1 then names[0] else names[0] + " " + Join(names[1..])
  }

  /** The position of the first space in s. */
  function FirstSpace(s: string): (k: nat)
    requires ' ' in s
    ensures k < |s| && s[k] == ' ' && ' ' !in s[..k]
  {
    if s[0] == ' ' then 0
    else
      assert s == [s[0]] + s[1..];
      var k := FirstSpace(s[1..]);
      assert s[..k + 1] == [s[0]] + s[1..][..k];
      k + 1
  }

  /** The fields of s between single spaces. */
  function Split(s: string): seq<string>
    decreases |s|
  {
    if ' ' in s then
      var k := FirstSpace(s);
      [s[..k]] + Split(s[k + 1..])
    else [s]
  }

  /** The first space is the one with no space before it. */
  lemma FirstSpaceAt(s: string, k: nat)
    requires k < |s| && s[k] == ' ' && ' ' !in s[..k]
    ensures ' ' in s && FirstSpace(s) == k
  {
    assert s[k] in s;
    var f := FirstSpace(s);
    forall j | 0 <= j < k ensures s[j] != ' ' {
      assert s[..k][j] == s[j];
    }
    forall j | 0 <= j < f ensures s[j] != ' ' {
      assert s[..f][j] == s[j];
    }
  }

  /** Names without spaces can be read back from the joined list. */
  lemma {:induction false} SplitJoin(names: seq<string>)
    requires |names| > 0 && forall i :: 0 <= i < |names| ==> ' ' !in names[i]
    ensures Split(Join(names)) == names
  {
    if |names| > 1 {
      var n, rest := names[0], Join(names[1..]);
      var s := n + " " + rest;
      assert s[..|n|] == n && s[|n|] == ' ';
      FirstSpaceAt(s, |n|);
      assert s[|n| + 1..] == rest;
      SplitJoin(names[1..]);
      assert names == [names[0]] + names[1..];
    }
  }
}
