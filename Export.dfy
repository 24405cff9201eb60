/**
 The export array of the engine: one entry per cake day, in the order of
 the stack's keys, telling whether the cake is small (one name) or large
 (more than one) and whose cake it is.
 */
module Export {
  import opened Calendar

  /** An entry of the export array: "date", "small", "large" and "names". */
  datatype CakeDayRow = CakeDayRow(date: Date, small: int, large: int, names: seq<string>)

  /** The entry prepareExport builds for a cake day and its names. */
  function Entry(date: Date, names: seq<string>): (e: CakeDayRow)
    ensures e.date == date && e.names == names
    ensures e.small == 1 <==> |names| == 1
    ensures e.large == 1 <==> |names| > 1
    ensures 0 <= e.small <= 1 && 0 <= e.large <= 1
  {
    CakeDayRow(date, if |names| == 1 then 1 else 0, if |names| > 1 then 1 else 0, names)
  }

  /** Every cake day with somebody on it gets exactly one cake, and only an
      empty list gets none. */
  lemma EntryHasOneCake(date: Date, names: seq<string>)
    ensures Entry(date, names).small + Entry(date, names).large == 1 <==> |names| > 0
  {
  }

  /** The export array for the keys visited so far, in visiting order. */
  function ExportRows(keys: seq<Date>, vals: map<Date, seq<string>>): (rows: seq<CakeDayRow>)
    requires forall k :: k in keys ==> k in vals
    ensures |rows| == |keys|
    ensures forall i :: 0 <= i < |keys| ==> rows[i] == Entry(keys[i], vals[keys[i]])
  {
    if |keys| == 0 then []
    else
      var n := |keys| - 1;
      assert forall k :: k in keys[..n] ==> k in keys;
      ExportRows(keys[..n], vals) + [Entry(keys[n], vals[keys[n]])]
  }

  /** A name on a listed cake day is in that day's entry. */
  lemma ExportRowsHas(keys: seq<Date>, vals: map<Date, seq<string>>, d: Date, x: string)
    requires forall k :: k in keys ==> k in vals
    requires d in keys && x in vals[d]
    ensures exists i :: 0 <= i < |keys| && ExportRows(keys, vals)[i].date == d && x in ExportRows(keys, vals)[i].names
  {
    var i :| 0 <= i < |keys| && keys[i] == d;
    assert ExportRows(keys, vals)[i] == Entry(d, vals[d]);
  }
}
