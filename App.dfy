/**
 The command-line program: it reads the rows of birthdays.csv, checks each
 one, groups the names by birth date into the array the engine is built
 from, and writes one output row per cake day.  Reading and writing the
 files is outside the model; the rows arrive as lists of fields.
 */
module App {
  import opened Calendar
  import opened Names
  import opened PhpArray
  import opened Sequences
  import opened Birthdays
  import opened Export
  import opened Text
  import Schedule
  import Engine

  // ---------------------------------------------------------------------
  // Checking one row

  /** The trimmed first field: the name. */
  function NameField(row: seq<string>): string
  {
    if |row| > 0 then Trim(row[0]) else ""
  }

  /** The trimmed second field: the birthday. */
  function DateField(row: seq<string>): string
  {
    if |row| > 1 then Trim(row[1]) else ""
  }

  /** What the program makes of one row, given the names accepted so far. */
  datatype Verdict = ShortRow | BadDate | EmptyName | DuplicateName | Accepted(name: string, date: Date)

  /** The checks in the order the program makes them: more than one field,
      then a real date, then a non-empty name, then a name not seen yet. */
  function Check(row: seq<string>, namesSoFar: seq<string>): (v: Verdict)
    ensures v == ShortRow <==> |row| <= 1
    ensures v == BadDate <==> |row| > 1 && ParseDate(DateField(row)).None?
    ensures v == EmptyName <==> |row| > 1 && ParseDate(DateField(row)).Some? && NameField(row) == ""
    ensures v == DuplicateName <==>
      |row| > 1 && ParseDate(DateField(row)).Some? && NameField(row) != "" && NameField(row) in namesSoFar
    ensures v.Accepted? ==> v.name == NameField(row) && ParseDate(DateField(row)) == Some(v.date) && ValidDate(v.date)
  {
    if |row| <= 1 then ShortRow
    else
      var birthday := Trim(row[1]);
      var name := Trim(row[0]);
      match ParseDate(birthday)
      case None => BadDate
      case Some(d) =>
        if |name| == 0 then EmptyName
        else if name in namesSoFar then DuplicateName
        else Accepted(name, d)
  }

  /** A row every check lets through. */
  predicate RowOk(row: seq<string>)
  {
    |row| > 1 && ParseDate(DateField(row)).Some? && NameField(row) != ""
  }

  // ---------------------------------------------------------------------
  // Reading the file

  /** The program's state while it reads: the error flag, the names
      accepted so far and the birthdays array. */
  datatype Reading = Reading(inputError: bool, namesSoFar: seq<string>, birthdays: BirthdayArray)

  function Start(): Reading
  {
    Reading(false, [], Empty())
  }

  /** Files a name under its birth date: appended to the date's list, or a
      new list at the end of the array. */
  function Group(b: BirthdayArray, d: Date, name: string): (r: BirthdayArray)
    ensures Valid(b) ==> Valid(r)
    ensures Full(d) in r.vals && r.vals[Full(d)] == (if Full(d) in b.vals then b.vals[Full(d)] else []) + [name]
    ensures forall k :: k != Full(d) ==> (k in r.vals <==> k in b.vals) && (k in b.vals ==> r.vals[k] == b.vals[k])
  {
    var key := Full(d);
    if key in b.vals then Assign(b, key, b.vals[key] + [name]) else Assign(b, key, [name])
  }

  /** The while loop from the i-th row on: a short row raises the error
      flag and reading goes on; any other failed check raises it and stops
      reading. */
  function ReadFrom(rows: seq<seq<string>>, i: nat, r: Reading): Reading
    requires i <= |rows|
    decreases |rows| - i
  {
    if i == |rows| then r
    else
      match Check(rows[i], r.namesSoFar)
      case ShortRow => ReadFrom(rows, i + 1, r.(inputError := true))
      case Accepted(name, d) =>
        ReadFrom(rows, i + 1, Reading(r.inputError, r.namesSoFar + [name], Group(r.birthdays, d, name)))
      case _ => r.(inputError := true)
  }

  /** What the program holds once the whole file is read: the birthdays
      array is a valid engine input holding exactly the accepted names,
      none of them twice and none under two birth dates. */
  function Read(rows: seq<seq<string>>): (r: Reading)
    ensures IsInput(r.birthdays) && Distinct(r.namesSoFar)
    ensures AllNames(r.birthdays.vals) == Elems(r.namesSoFar) && Disjoint(r.birthdays.vals)
  {
    ReadFromKeeps(rows, 0, Start());
    ReadFrom(rows, 0, Start())
  }

  /** What reading keeps true of the state. */
  ghost predicate Sound(r: Reading)
  {
    && IsInput(r.birthdays) && Distinct(r.namesSoFar)
    && AllNames(r.birthdays.vals) == Elems(r.namesSoFar) && Disjoint(r.birthdays.vals)
  }

  /** Filing a name under a valid date keeps the array a valid engine
      input. */
  lemma GroupInput(b: BirthdayArray, d: Date, name: string)
    requires IsInput(b) && ValidDate(d)
    ensures IsInput(Group(b, d, name))
  {
    var g := Group(b, d, name);
    MonthDayOfValidDate(d);
    forall k | k in g.vals ensures k.Full? && |g.vals[k]| > 0 && ValidMonthDay(k.date.month, k.date.day) {
      if k != Full(d) {
        assert k in b.vals;
      }
    }
  }

  /** Filing a name adds exactly that name to the names of the array. */
  lemma GroupNames(b: BirthdayArray, d: Date, name: string)
    ensures AllNames(Group(b, d, name).vals) == AllNames(b.vals) + {name}
  {
    var k := Full(d);
    var before := if k in b.vals then b.vals[k] else [];
    var v := before + [name];
    assert Group(b, d, name).vals == b.vals[k := v];
    AllNamesUpdate(b.vals, k, v);
    ElemsConcat(before, [name]);
    if k in b.vals {
      AllNamesRemove(b.vals, k);
    } else {
      AllNamesAbsent(b.vals, k);
    }
  }

  /** Filing a name that is nowhere in the array keeps names apart. */
  lemma GroupDisjoint(b: BirthdayArray, d: Date, name: string)
    requires Disjoint(b.vals) && name !in AllNames(b.vals)
    ensures Disjoint(Group(b, d, name).vals)
  {
    var k := Full(d);
    var g := Group(b, d, name).vals;
    assert g == b.vals[k := (if k in b.vals then b.vals[k] else []) + [name]];
    forall a, c, x | a in g && c in g && x in g[a] && x in g[c] ensures a == c {
      assert a == k || g[a] == b.vals[a];
      assert c == k || g[c] == b.vals[c];
      assert a in b.vals && x in b.vals[a] ==> x in AllNames(b.vals);
      assert c in b.vals && x in b.vals[c] ==> x in AllNames(b.vals);
    }
  }

  lemma GroupSound(r: Reading, d: Date, name: string)
    requires Sound(r) && ValidDate(d) && name !in r.namesSoFar
    ensures Sound(Reading(r.inputError, r.namesSoFar + [name], Group(r.birthdays, d, name)))
  {
    GroupInput(r.birthdays, d, name);
    GroupNames(r.birthdays, d, name);
    ElemsConcat(r.namesSoFar, [name]);
    DistinctSnoc(r.namesSoFar, name);
    GroupDisjoint(r.birthdays, d, name);
  }

  lemma {:induction false} ReadFromKeeps(rows: seq<seq<string>>, i: nat, r: Reading)
    requires i <= |rows| && Sound(r)
    ensures Sound(ReadFrom(rows, i, r))
    decreases |rows| - i
  {
    if i < |rows| {
      match Check(rows[i], r.namesSoFar)
      case ShortRow => ReadFromKeeps(rows, i + 1, r.(inputError := true));
      case Accepted(name, d) =>
        GroupSound(r, d, name);
        ReadFromKeeps(rows, i + 1, Reading(r.inputError, r.namesSoFar + [name], Group(r.birthdays, d, name)));
      case _ =>
    }
  }

  /** $data = fgetcsv(...) in a while loop, with the checks and the
      grouping; the error flag, the names and the array come out as Read
      says. */
  method ReadBirthdays(rows: seq<seq<string>>) returns (inputError: bool, namesSoFar: seq<string>, birthdaysArr: BirthdayArray)
    ensures Reading(inputError, namesSoFar, birthdaysArr) == Read(rows)
  {
    inputError, namesSoFar, birthdaysArr := false, [], PArray([], map[]);
    var i := 0;
    while i < |rows|
      invariant i <= |rows|
      invariant ReadFrom(rows, i, Reading(inputError, namesSoFar, birthdaysArr)) == Read(rows)
    {
      var data := rows[i];
      if |data| > 1 {
        var birthday := Trim(data[1]);
        var name := Trim(data[0]);
        var dt := ParseDate(birthday);
        if dt.None? {
          inputError := true;
          break;
        }
        if |name| == 0 {
          inputError := true;
          break;
        }
        if name in namesSoFar {
          inputError := true;
          break;
        }
        namesSoFar := namesSoFar + [name];
        var key := Full(dt.value);
        if key in birthdaysArr.vals {
          birthdaysArr := Assign(birthdaysArr, key, birthdaysArr.vals[key] + [name]);
        } else {
          birthdaysArr := Assign(birthdaysArr, key, [name]);
        }
      } else {
        inputError := true;
      }
      i := i + 1;
    }
  }

  // ---------------------------------------------------------------------
  // When the input is accepted

  /** The trimmed names of the rows, in file order. */
  function NameFields(rows: seq<seq<string>>): (r: seq<string>)
    ensures |r| == |rows| && forall j :: 0 <= j < |rows| ==> r[j] == NameField(rows[j])
  {
    if |rows| == 0 then [] else [NameField(rows[0])] + NameFields(rows[1..])
  }

  /** Once the flag is up it stays up. */
  lemma {:induction false} ErrorSticks(rows: seq<seq<string>>, i: nat, r: Reading)
    requires i <= |rows| && r.inputError
    ensures ReadFrom(rows, i, r).inputError
    decreases |rows| - i
  {
    if i < |rows| {
      match Check(rows[i], r.namesSoFar)
      case ShortRow => ErrorSticks(rows, i + 1, r.(inputError := true));
      case Accepted(name, d) =>
        ErrorSticks(rows, i + 1, Reading(r.inputError, r.namesSoFar + [name], Group(r.birthdays, d, name)));
      case _ =>
    }
  }

  /** Every row from the i-th on passes the checks of a single row. */
  ghost predicate RowsOkFrom(rows: seq<seq<string>>, i: nat)
  {
    forall j :: i <= j < |rows| ==> RowOk(rows[j])
  }

  lemma RowsOkStep(rows: seq<seq<string>>, i: nat)
    requires i < |rows|
    ensures RowsOkFrom(rows, i) <==> RowOk(rows[i]) && RowsOkFrom(rows, i + 1)
  {
  }

  lemma NameFieldsStep(rows: seq<seq<string>>, i: nat)
    requires i < |rows|
    ensures NameFields(rows[i..]) == [NameField(rows[i])] + NameFields(rows[i + 1..])
  {
    assert rows[i..][1..] == rows[i + 1..];
  }

  lemma {:induction false} ReadFromAccepts(rows: seq<seq<string>>, i: nat, r: Reading)
    requires i <= |rows| && Distinct(r.namesSoFar)
    ensures !ReadFrom(rows, i, r).inputError <==>
      !r.inputError && RowsOkFrom(rows, i) && Distinct(r.namesSoFar + NameFields(rows[i..]))
    ensures !ReadFrom(rows, i, r).inputError ==> ReadFrom(rows, i, r).namesSoFar == r.namesSoFar + NameFields(rows[i..])
    decreases |rows| - i
  {
    if i < |rows| {
      var v := Check(rows[i], r.namesSoFar);
      if v.Accepted? {
        var r' := Reading(r.inputError, r.namesSoFar + [v.name], Group(r.birthdays, v.date, v.name));
        AcceptedUnfold(rows, i, r);
        AcceptedStep(rows, i, r);
        ReadFromAccepts(rows, i + 1, r');
      } else {
        RefusedStep(rows, i, r);
      }
    }
  }

  /** An accepted row: reading goes on with the name filed. */
  lemma AcceptedUnfold(rows: seq<seq<string>>, i: nat, r: Reading)
    requires i < |rows| && Check(rows[i], r.namesSoFar).Accepted?
    ensures var v := Check(rows[i], r.namesSoFar);
      ReadFrom(rows, i, r) == ReadFrom(rows, i + 1, Reading(r.inputError, r.namesSoFar + [v.name], Group(r.birthdays, v.date, v.name)))
  {
  }

  /** An accepted row's name joins the names of the rest of the file. */
  lemma AcceptedStep(rows: seq<seq<string>>, i: nat, r: Reading)
    requires i < |rows| && Distinct(r.namesSoFar) && Check(rows[i], r.namesSoFar).Accepted?
    ensures var v := Check(rows[i], r.namesSoFar);
      var r' := Reading(r.inputError, r.namesSoFar + [v.name], Group(r.birthdays, v.date, v.name));
      && Distinct(r'.namesSoFar)
      && (RowsOkFrom(rows, i) <==> RowsOkFrom(rows, i + 1))
      && r.namesSoFar + NameFields(rows[i..]) == r'.namesSoFar + NameFields(rows[i + 1..])
  {
    var v := Check(rows[i], r.namesSoFar);
    NameFieldsStep(rows, i);
    AppendAssoc(r.namesSoFar, [v.name], NameFields(rows[i + 1..]));
    RowsOkStep(rows, i);
    DistinctSnoc(r.namesSoFar, v.name);
  }

  /** A refused row leaves the flag up at the end, and the file is not
      acceptable from that row on. */
  lemma RefusedStep(rows: seq<seq<string>>, i: nat, r: Reading)
    requires i < |rows| && !Check(rows[i], r.namesSoFar).Accepted?
    ensures ReadFrom(rows, i, r).inputError
    ensures !(RowsOkFrom(rows, i) && Distinct(r.namesSoFar + NameFields(rows[i..])))
  {
    var v := Check(rows[i], r.namesSoFar);
    RowsOkStep(rows, i);
    if v == ShortRow {
      ErrorSticks(rows, i + 1, r.(inputError := true));
    } else if v == DuplicateName {
      NameFieldsStep(rows, i);
      RepeatNotDistinct(r.namesSoFar, NameField(rows[i]), NameFields(rows[i + 1..]));
      AppendAssoc(r.namesSoFar, [NameField(rows[i])], NameFields(rows[i + 1..]));
    }
  }

  /** The input is accepted exactly when every row has a real date and a
      non-empty name and no name occurs twice; then the names are kept in
      file order. */
  lemma Accepts(rows: seq<seq<string>>)
    ensures !Read(rows).inputError <==> (forall j :: 0 <= j < |rows| ==> RowOk(rows[j])) && Distinct(NameFields(rows))
    ensures !Read(rows).inputError ==> Read(rows).namesSoFar == NameFields(rows)
  {
    ReadFromAccepts(rows, 0, Start());
    assert rows[0..] == rows;
    assert Start().namesSoFar + NameFields(rows) == NameFields(rows);
  }

  /** Reading on from the i-th row: row j, not read yet, which reads as
      name and date d, leaves name filed under d unless reading fails. */
  lemma {:induction false} ReadFromFiles(rows: seq<seq<string>>, i: nat, r: Reading, j: nat, d: Date, name: string)
    requires i <= j < |rows|
    requires ParseDate(DateField(rows[j])) == Some(d) && NameField(rows[j]) == name
    ensures var e := ReadFrom(rows, i, r);
      !e.inputError ==> Full(d) in e.birthdays.vals && name in e.birthdays.vals[Full(d)]
    decreases |rows| - i
  {
    var v := Check(rows[i], r.namesSoFar);
    if !v.Accepted? {
      RefusedStep(rows, i, r);
    } else {
      var next := Reading(r.inputError, r.namesSoFar + [v.name], Group(r.birthdays, v.date, v.name));
      AcceptedUnfold(rows, i, r);
      if j == i {
        assert v.date == d && v.name == name;
        ReadFromKeepsFiled(rows, i + 1, next, d, name);
      } else {
        ReadFromFiles(rows, i + 1, next, j, d, name);
      }
    }
  }

  /** A name filed under d stays there for the rest of the file. */
  lemma {:induction false} ReadFromKeepsFiled(rows: seq<seq<string>>, i: nat, r: Reading, d: Date, name: string)
    requires i <= |rows| && Full(d) in r.birthdays.vals && name in r.birthdays.vals[Full(d)]
    ensures var e := ReadFrom(rows, i, r);
      Full(d) in e.birthdays.vals && name in e.birthdays.vals[Full(d)]
    decreases |rows| - i
  {
    if i < |rows| {
      match Check(rows[i], r.namesSoFar)
      case ShortRow => ReadFromKeepsFiled(rows, i + 1, r.(inputError := true), d, name);
      case Accepted(n, c) =>
        GroupKeeps(r.birthdays, c, n, d, name);
        ReadFromKeepsFiled(rows, i + 1, Reading(r.inputError, r.namesSoFar + [n], Group(r.birthdays, c, n)), d, name);
      case _ =>
    }
  }

  /** Filing a name leaves every name already filed where it was. */
  lemma GroupKeeps(b: BirthdayArray, d: Date, name: string, d': Date, name': string)
    requires Full(d') in b.vals && name' in b.vals[Full(d')]
    ensures Full(d') in Group(b, d, name).vals && name' in Group(b, d, name).vals[Full(d')]
  {
    if d' == d {
      assert name' in b.vals[Full(d)] + [name];
    }
  }

  /** Every name of an accepted file sits in the birthdays array under the
      date of its own row. */
  lemma Files(rows: seq<seq<string>>, j: nat)
    requires j < |rows| && !Read(rows).inputError
    ensures ParseDate(DateField(rows[j])).Some?
    ensures var k := Full(ParseDate(DateField(rows[j])).value);
      k in Read(rows).birthdays.vals && NameField(rows[j]) in Read(rows).birthdays.vals[k]
  {
    Accepts(rows);
    var d := ParseDate(DateField(rows[j])).value;
    ReadFromFiles(rows, 0, Start(), j, d, NameField(rows[j]));
  }

  // ---------------------------------------------------------------------
  // Writing the output

  /** The four output fields of a cake day: the date, the small and large
      cake counts, and the names joined by spaces. */
  function Fields(e: CakeDayRow): (f: seq<string>)
    requires ValidDate(e.date) && e.small >= 0 && e.large >= 0
    ensures |f| == 4 && AllDigits(f[1]) && AllDigits(f[2]) && f[3] == Join(e.names)
  {
    [FormatDate(e.date), Decimal(e.small), Decimal(e.large), Join(e.names)]
  }

  /** The date field of an output row reads back as the cake day whenever
      it reads as a date at all, and it always does for four-digit years. */
  lemma DateReadsBack(e: CakeDayRow)
    requires ValidDate(e.date) && e.small >= 0 && e.large >= 0
    ensures ParseDate(Fields(e)[0]).Some? ==> ParseDate(Fields(e)[0]) == Some(e.date)
    ensures 0 <= e.date.year < 10000 ==> ParseDate(Fields(e)[0]) == Some(e.date)
  {
    var s := Fields(e)[0];
    if 0 <= e.date.year < 10000 {
      ParseFormat(e.date);
    }
    if ParseDate(s).Some? {
      FormatParse(s);
      FormatDateInjective(ParseDate(s).value, e.date);
    }
  }

  /** What the output loop needs of an export array. */
  predicate Writable(es: seq<CakeDayRow>)
  {
    forall i :: 0 <= i < |es| ==> ValidDate(es[i].date) && es[i].small >= 0 && es[i].large >= 0
  }

  /** The output rows for the cake days, in the export array's order. */
  function OutputRows(es: seq<CakeDayRow>): (out: seq<seq<string>>)
    requires Writable(es)
    ensures |out| == |es| && forall i :: 0 <= i < |es| ==> out[i] == Fields(es[i])
  {
    if |es| == 0 then []
    else
      var n := |es| - 1;
      WritablePrefix(es, n);
      var r := OutputRows(es[..n]);
      AppendRow(r, es);
      r + [Fields(es[n])]
  }

  /** A prefix of a writable export array is writable. */
  lemma WritablePrefix(es: seq<CakeDayRow>, n: nat)
    requires Writable(es) && n <= |es|
    ensures Writable(es[..n]) && forall i :: 0 <= i < n ==> es[..n][i] == es[i]
  {
  }

  /** The rows of a prefix, with the last entry's row appended, are the
      rows of the whole array. */
  lemma AppendRow(r: seq<seq<string>>, es: seq<CakeDayRow>)
    requires Writable(es) && |es| > 0 && |r| == |es| - 1
    requires forall i :: 0 <= i < |r| ==> r[i] == Fields(es[..|r|][i])
    ensures var out := r + [Fields(es[|r|])];
      |out| == |es| && forall i :: 0 <= i < |es| ==> out[i] == Fields(es[i])
  {
    assert forall i :: 0 <= i < |r| ==> es[..|r|][i] == es[i];
  }

  lemma OutputRowsSnoc(es: seq<CakeDayRow>, i: nat)
    requires Writable(es) && i < |es|
    ensures Writable(es[..i]) && Writable(es[..i + 1])
    ensures OutputRows(es[..i + 1]) == OutputRows(es[..i]) + [Fields(es[i])]
  {
    var next := es[..i + 1];
    assert next[..i] == es[..i] && next[i] == es[i];
  }

  /** The names field of an output row reads back as the cake day's list
      when no name holds a space. */
  lemma NamesReadBack(e: CakeDayRow)
    requires ValidDate(e.date) && e.small >= 0 && e.large >= 0
    requires |e.names| > 0 && forall i :: 0 <= i < |e.names| ==> ' ' !in e.names[i]
    ensures Split(Fields(e)[3]) == e.names
  {
    SplitJoin(e.names);
  }

  /** The engine's schedule can always be written. */
  lemma ScheduleWritable(year: int, b: BirthdayArray)
    requires IsInput(b)
    ensures Writable(Schedule.CakeDays(year, b))
  {
    Schedule.CakeDaysShape(year, b);
  }

  // ---------------------------------------------------------------------
  // The program

  /** foreach ($cakeDays as $cakeDay): the four fields of every entry. */
  method WriteRows(cakeDays: seq<CakeDayRow>) returns (lines: seq<seq<string>>)
    requires Writable(cakeDays)
    ensures lines == OutputRows(cakeDays)
  {
    lines := [];
    var i := 0;
    assert cakeDays[..0] == [];
    while i < |cakeDays|
      invariant i <= |cakeDays|
      invariant Writable(cakeDays[..i]) && lines == OutputRows(cakeDays[..i])
    {
      var e := cakeDays[i];
      var f := Fields(e);
      OutputRowsSnoc(cakeDays, i);
      lines := lines + [f];
      i := i + 1;
    }
    assert cakeDays[..i] == cakeDays;
  }

  /** The whole program for the target year: nothing is written when the
      input is refused; otherwise one output row per cake day of the
      engine's schedule. */
  method Run(rows: seq<seq<string>>, year: int) returns (output: Option<seq<seq<string>>>)
    ensures output.None? <==> Read(rows).inputError
    ensures output.Some? ==> output.value == OutputRows(Schedule.CakeDays(year, Read(rows).birthdays))
  {
    var inputError, namesSoFar, birthdaysArr := ReadBirthdays(rows);
    if inputError {
      return None;
    }
    var cakeDaysObj := new Engine.CakeDays(birthdaysArr, year);
    var cakeDays := cakeDaysObj.GetCakeDays();
    ScheduleWritable(year, birthdaysArr);
    var lines := WriteRows(cakeDays);
    output := Some(lines);
  }

  /** Everybody on an accepted list appears in the output, in one entry
      only, and nobody else does. */
  lemma OutputNames(rows: seq<seq<string>>, year: int, x: string)
    requires !Read(rows).inputError
    ensures var es := Schedule.CakeDays(year, Read(rows).birthdays);
      (exists i :: 0 <= i < |es| && x in es[i].names) <==> (exists j :: 0 <= j < |rows| && NameField(rows[j]) == x)
    ensures var es := Schedule.CakeDays(year, Read(rows).birthdays);
      forall i, j :: 0 <= i < |es| && 0 <= j < |es| && x in es[i].names && x in es[j].names ==> i == j
  {
    Accepts(rows);
    Schedule.CakeDaysNames(year, Read(rows).birthdays);
    Schedule.CakeDaysOnce(year, Read(rows).birthdays);
    var names := NameFields(rows);
    if x in Elems(names) {
      var j :| 0 <= j < |names| && names[j] == x;
    }
  }
}
