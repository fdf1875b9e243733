/** The export pipeline, write_network_hierarchy_to_csv: the header, then
    one row per fetched network in the fixed column order, each entry's
    location replaced in place by its `lat,lon` text on the way. */
module Export {
  import opened Wrappers
  import opened PyText
  import opened Decimals
  import opened Json
  import opened Validators
  import opened Locations
  import opened Hierarchy

  /** fetch_network_hierarchy: the list the GET answered, or no entries when
      the answer is anything else (make_request answers {} on any transport
      error, and a non-list is logged and dropped). */
  function FetchedEntries(response: Json): (entries: seq<Json>)
    ensures entries != [] ==> response == JList(entries)
    ensures response.JList? ==> entries == response.items
  {
    if response.JList? then response.items else []
  }

  /** The text written for an entry's location (`{}` when it has none):
      `coordinates[1],coordinates[0]` for a point with two coordinates,
      "N/A" for anything else, or the exception Python raises on the way. */
  function LocationCell(location: Json): Result<string, PyError> {
    if !location.JObject? then Err(AttributeError)
    else if Get(location.members, "type") != Some(JStr("Point")) then Ok("N/A")
    else
      match GetOr(location.members, "coordinates", JList([]))
      case JList(items) => if |items| == 2 then Ok(Str(items[1]) + "," + Str(items[0])) else Ok("N/A")
      case JStr(s) => if |s| == 2 then Ok([s[1]] + "," + [s[0]]) else Ok("N/A")
      case JObject(members) => if |members| == 2 then Err(KeyError) else Ok("N/A")
      case _ => Err(TypeError)
  }

  /** A remote point is written latitude first: the coordinate order is
      swapped back. */
  lemma PointCell(p: Point)
    ensures LocationCell(PointJson(p)) == Ok(LocationText(p))
  {
    var m := PointJson(p).members;
    assert Get(m, "type") == Some(JStr("Point"));
    assert Get(m, "coordinates") == Some(JList([JNum(p.lon), JNum(p.lat)])) by {
      assert m[0].key != "coordinates" by { assert m[0].key[0] == 't'; }
      assert m[1..][0].key == "coordinates";
    }
  }

  /** An entry without a location, or whose location is not a point, is
      written as "N/A". */
  lemma NotAPointCell(location: Json)
    requires location.JObject? && Get(location.members, "type") != Some(JStr("Point"))
    ensures LocationCell(location) == Ok("N/A")
  {
  }

  /** Every location the export can meet, by cases: a value that is not a
      dict raises AttributeError; a dict that is not a point, or a point
      whose coordinates (a list by default) are a list, string or dict of
      other than two elements, is written "N/A"; a point whose coordinates
      have no len() raises TypeError; a point whose coordinates are a dict of
      two members raises KeyError on `coordinates[1]`; and a pair of two
      items or a string of two characters is written swapped. */
  lemma LocationCellCases(location: Json)
    ensures LocationCell(location) == Err(AttributeError) <==> !location.JObject?
    ensures var point := location.JObject? && Get(location.members, "type") == Some(JStr("Point"));
      var c := if location.JObject? then GetOr(location.members, "coordinates", JList([])) else JNull;
      && (LocationCell(location) == Ok("N/A") <==>
            location.JObject? &&
            (!point || (c.JList? && |c.items| != 2) || (c.JStr? && |c.s| != 2) || (c.JObject? && |c.members| != 2)))
      && (LocationCell(location) == Err(TypeError) <==> point && (c.JNull? || c.JBool? || c.JNum?))
      && (LocationCell(location) == Err(KeyError) <==> point && c.JObject? && |c.members| == 2)
      && (point && c.JList? && |c.items| == 2 ==> LocationCell(location) == Ok(Str(c.items[1]) + "," + Str(c.items[0])))
      && (point && c.JStr? && |c.s| == 2 ==> LocationCell(location) == Ok([c.s[1]] + "," + [c.s[0]]))
  {
    if location.JObject? && Get(location.members, "type") == Some(JStr("Point")) {
      var c := GetOr(location.members, "coordinates", JList([]));
      if c.JList? && |c.items| == 2 {
        SwappedIsNotSentinel(Str(c.items[1]), Str(c.items[0]));
      } else if c.JStr? && |c.s| == 2 {
        SwappedIsNotSentinel([c.s[1]], [c.s[0]]);
      }
    }
  }

  /** A swapped pair holds a comma, which "N/A" does not. */
  lemma SwappedIsNotSentinel(a: string, b: string)
    ensures a + "," + b != "N/A"
  {
    var t := a + "," + b;
    assert t[|a|] == ',';
    assert ',' !in "N/A";
  }

  /** The column "location" is the seventh and no other. */
  lemma LocationColumn(k: nat)
    requires k < |Columns|
    ensures Columns[k] == "location" <==> k == 6
  {
    if k < 6 {
      assert |Columns[k]| != 8 by {
        if k == 0 {} else if k == 1 {} else if k == 2 {} else if k == 3 {} else if k == 4 {}
      }
    } else if k == 7 {
      assert |Columns[k]| == 12;
    }
  }

  /** One turn of the loop: the entry with its location replaced by the
      rendered text, and the row written for it. */
  function ExportEntry(entry: Json): Result<(Json, seq<string>), PyError> {
    if !entry.JObject? then Err(AttributeError)
    else
      match LocationCell(GetOr(entry.members, "location", JObject([])))
      case Err(e) => Err(e)
      case Ok(cell) =>
        var updated := Set(entry.members, "location", JStr(cell));
        Ok((JObject(updated), Cells(updated, Columns)))
  }

  /** `[entry.get(key, 'N/A') for key in keys]` as csv.writer writes it. */
  function Cells(members: seq<Member>, keys: seq<string>): (row: seq<string>)
    ensures |row| == |keys|
    ensures forall k :: 0 <= k < |keys| ==> row[k] == CsvField(GetOr(members, keys[k], JStr("N/A")))
  {
    if keys == [] then []
    else [CsvField(GetOr(members, keys[0], JStr("N/A")))] + Cells(members, keys[1..])
  }

  /** What one turn of the loop does: an entry that is not a dict raises;
      otherwise it raises exactly when its location does. The row has one
      cell per column; every column but location holds the entry's own
      value (an empty cell for null) or "N/A" when the entry has no such
      key; the location column holds the rendered location, which is also
      stored in the entry, and nothing else in the entry changes. */
  lemma ExportEntryRow(entry: Json)
    ensures !entry.JObject? ==> ExportEntry(entry) == Err(AttributeError)
    ensures entry.JObject? ==>
      (ExportEntry(entry).Ok? <==> LocationCell(GetOr(entry.members, "location", JObject([]))).Ok?)
    ensures ExportEntry(entry).Ok? ==>
      var (updated, row) := ExportEntry(entry).value;
      && |row| == |Columns|
      && row[6] == LocationCell(GetOr(entry.members, "location", JObject([]))).value
      && updated.JObject?
      && Get(updated.members, "location") == Some(JStr(row[6]))
      && (forall key :: key != "location" ==> Get(updated.members, key) == Get(entry.members, key))
      && (forall k :: 0 <= k < |Columns| && k != 6 ==>
            row[k] == (match Get(entry.members, Columns[k]) case None => "N/A" case Some(v) => CsvField(v)))
  {
    if ExportEntry(entry).Ok? {
      var cell := LocationCell(GetOr(entry.members, "location", JObject([]))).value;
      var (updated, row) := ExportEntry(entry).value;
      SetThenGet(entry.members, "location", JStr(cell), "location");
      forall key | key != "location"
        ensures Get(updated.members, key) == Get(entry.members, key)
      {
        SetThenGet(entry.members, "location", JStr(cell), key);
      }
      forall k | 0 <= k < |Columns| && k != 6
        ensures row[k] == (match Get(entry.members, Columns[k]) case None => "N/A" case Some(v) => CsvField(v))
      {
        LocationColumn(k);
        SetThenGet(entry.members, "location", JStr(cell), Columns[k]);
      }
    }
  }

  /** What the loop leaves behind: the rows written after the header, the
      entries as they are afterwards, and the exception that stopped it. */
  datatype ExportRun = ExportRun(rows: seq<seq<string>>, entries: seq<Json>, error: Option<PyError>)

  /** The loop over the fetched entries, stopping at the first exception:
      the entries before it are updated and written, the rest untouched. */
  function ExportRows(es: seq<Json>): (run: ExportRun)
    ensures |run.rows| <= |es| && |run.entries| == |es|
    ensures run.error.None? ==> |run.rows| == |es|
  {
    if es == [] then ExportRun([], [], None)
    else
      match ExportEntry(es[0])
      case Err(e) => ExportRun([], es, Some(e))
      case Ok((updated, row)) =>
        var rest := ExportRows(es[1..]);
        ExportRun([row] + rest.rows, [updated] + rest.entries, rest.error)
  }

  /** An export that raises stops at the first entry that raises: every
      entry before it was written, that entry's error is the run's error,
      and it and the entries after it are left as fetched. */
  lemma {:induction false} ExportStopsAtFirstError(es: seq<Json>)
    ensures var run := ExportRows(es);
      run.error.Some? ==>
        && |run.rows| < |es|
        && (forall i :: 0 <= i < |run.rows| ==> ExportEntry(es[i]).Ok?)
        && ExportEntry(es[|run.rows|]) == Err(run.error.value)
        && run.entries[|run.rows|..] == es[|run.rows|..]
  {
    if es != [] && ExportEntry(es[0]).Ok? {
      var run, rest := ExportRows(es), ExportRows(es[1..]);
      ExportStopsAtFirstError(es[1..]);
      if run.error.Some? {
        var k := |rest.rows|;
        assert |run.rows| == k + 1;
        assert es[k + 1] == es[1..][k];
        forall i | 0 <= i < |run.rows| ensures ExportEntry(es[i]).Ok? {
          if i > 0 { assert es[i] == es[1..][i - 1]; }
        }
        assert run.entries[k + 1..] == rest.entries[k..];
        assert es[k + 1..] == es[1..][k..];
      }
    }
  }

  /** A list whose first entry is written: its run is that entry's row and
      update followed by the run of the rest. */
  lemma ExportRowsCons(es: seq<Json>)
    requires es != [] && ExportEntry(es[0]).Ok?
    ensures ExportRows(es).rows == [ExportEntry(es[0]).value.1] + ExportRows(es[1..]).rows
    ensures ExportRows(es).error == ExportRows(es[1..]).error
  {
  }

  /** Entries that are each written without raising give exactly their
      rows, in order, and the export completes. */
  lemma {:induction false} ExportAllWritten(es: seq<Json>, rows: seq<seq<string>>)
    requires |es| == |rows|
    requires forall i :: 0 <= i < |es| ==> ExportEntry(es[i]).Ok? && ExportEntry(es[i]).value.1 == rows[i]
    ensures ExportRows(es).error == None && ExportRows(es).rows == rows
    decreases |es|
  {
    if es != [] {
      ExportAllWritten(es[1..], rows[1..]);
      ExportRowsCons(es);
      assert rows == [rows[0]] + rows[1..];
    }
  }

  /** How write_network_hierarchy_to_csv ends: the number of lines it
      returns, or the exception that escapes it. */
  datatype ExportOutcome = Written(count: nat) | Raised(error: PyError)

  /** write_network_hierarchy_to_csv over the fetched list: writes the
      header and the rows, updates each entry's location in place, and
      returns the number of lines, one more than the number of entries. */
  method WriteHierarchy(entries: array<Json>) returns (lines: seq<seq<string>>, outcome: ExportOutcome)
    modifies entries
    ensures lines == [Columns] + ExportRows(old(entries[..])).rows
    ensures entries[..] == ExportRows(old(entries[..])).entries
    ensures outcome == match ExportRows(old(entries[..])).error
                       case None => Written(entries.Length + 1)
                       case Some(e) => Raised(e)
    ensures entries.Length == 0 ==> lines == [Columns] && outcome == Written(1)
  {
    ghost var fetched := entries[..];
    ghost var run := ExportRows(fetched);
    var rows := [];
    var i := 0;
    while i < entries.Length
      invariant 0 <= i <= entries.Length && |rows| == i
      invariant entries[i..] == fetched[i..]
      invariant run == Resume(rows, entries[..i], ExportRows(fetched[i..]))
    {
      var error;
      rows, error := ExportTurn(entries, i, rows, fetched, run);
      if error.Some? {
        lines, outcome := [Columns] + rows, Raised(error.value);
        return;
      }
      i := i + 1;
    }
    ExportLoopEnds(fetched, rows, entries[..i], run);
    assert entries[..] == entries[..i];
    lines, outcome := [Columns] + rows, Written(entries.Length + 1);
  }

  /** One turn of the loop of write_network_hierarchy_to_csv on entry i:
      either it raises, leaving the entries and the rows alone and the run
      ended, or it rewrites entry i and appends its row, and the run resumes
      after it. */
  method ExportTurn(entries: array<Json>, i: nat, rows: seq<seq<string>>, ghost fetched: seq<Json>, ghost run: ExportRun)
    returns (next: seq<seq<string>>, error: Option<PyError>)
    requires i < entries.Length == |fetched| && |rows| == i
    requires entries[i..] == fetched[i..]
    requires run == Resume(rows, entries[..i], ExportRows(fetched[i..]))
    modifies entries
    ensures error.Some? ==> next == rows && entries[..] == old(entries[..])
    ensures error.Some? ==> run == ExportRun(rows, entries[..], error)
    ensures error.None? ==> |next| == i + 1 && entries[i + 1..] == fetched[i + 1..]
    ensures error.None? ==> run == Resume(next, entries[..i + 1], ExportRows(fetched[i + 1..]))
  {
    var step := ExportEntry(entries[i]);
    if step.Err? {
      ExportLoopStops(fetched, i, rows, entries[..i], run);
      assert entries[..] == entries[..i] + fetched[i..];
      return rows, Some(step.error);
    }
    var (updated, row) := step.value;
    ExportLoopContinues(fetched, i, rows, entries[..i], run);
    ghost var done := entries[..i];
    entries[i] := updated;
    next, error := rows + [row], None;
    assert entries[..i + 1] == done + [updated];
  }

  /** The run of the whole list, given what the loop has done so far and the
      run of the entries still to go. */
  function Resume(rows: seq<seq<string>>, done: seq<Json>, rest: ExportRun): ExportRun {
    ExportRun(rows + rest.rows, done + rest.entries, rest.error)
  }

  /** A turn of the loop that writes entry i: the run of the whole list
      resumes after it with one more row and one more updated entry. */
  lemma ExportLoopContinues(es: seq<Json>, i: nat, rows: seq<seq<string>>, done: seq<Json>, run: ExportRun)
    requires i < |es| && ExportEntry(es[i]).Ok?
    requires run == Resume(rows, done, ExportRows(es[i..]))
    ensures run ==
      Resume(rows + [ExportEntry(es[i]).value.1], done + [ExportEntry(es[i]).value.0], ExportRows(es[i + 1..]))
  {
    assert es[i..][0] == es[i] && es[i..][1..] == es[i + 1..];
    var rest := ExportRows(es[i + 1..]);
    var (updated, row) := ExportEntry(es[i]).value;
    assert rows + ([row] + rest.rows) == (rows + [row]) + rest.rows;
    assert done + ([updated] + rest.entries) == (done + [updated]) + rest.entries;
  }

  /** A turn of the loop on which entry i raises: the run ends there, with
      the rest of the list untouched. */
  lemma ExportLoopStops(es: seq<Json>, i: nat, rows: seq<seq<string>>, done: seq<Json>, run: ExportRun)
    requires i < |es| && ExportEntry(es[i]).Err?
    requires run == Resume(rows, done, ExportRows(es[i..]))
    ensures run == ExportRun(rows, done + es[i..], Some(ExportEntry(es[i]).error))
  {
    assert es[i..][0] == es[i];
    assert rows + [] == rows;
  }

  lemma ExportLoopEnds(es: seq<Json>, rows: seq<seq<string>>, done: seq<Json>, run: ExportRun)
    requires run == Resume(rows, done, ExportRows(es[|es|..]))
    ensures run == ExportRun(rows, done, None)
  {
    assert es[|es|..] == [];
    assert rows + [] == rows && done + [] == done;
  }

  /** Row i is the row of entry i, and entry i is updated as its own turn of
      the loop says. */
  lemma {:induction false} RowsFollowEntries(es: seq<Json>, i: nat)
    requires i < |ExportRows(es).rows|
    ensures ExportEntry(es[i]).Ok?
    ensures ExportEntry(es[i]).value == (ExportRows(es).entries[i], ExportRows(es).rows[i])
    decreases i
  {
    if i > 0 {
      RowsFollowEntries(es[1..], i - 1);
    }
  }

  /** Export completes exactly when no entry raises. */
  lemma {:induction false} ExportCompletesIff(es: seq<Json>)
    ensures ExportRows(es).error.None? <==> forall i :: 0 <= i < |es| ==> ExportEntry(es[i]).Ok?
    decreases |es|
  {
    if es != [] {
      ExportCompletesIff(es[1..]);
      assert forall i :: 0 < i < |es| ==> es[i] == es[1..][i - 1];
    }
  }

  /** An empty fetch (or a response that is not a list) writes the header
      alone and returns 1. */
  lemma EmptyFetchWritesHeader(response: Json)
    requires !response.JList? || response.items == []
    ensures FetchedEntries(response) == []
    ensures ExportRows(FetchedEntries(response)) == ExportRun([], [], None)
  {
  }
}
