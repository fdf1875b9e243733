/** The two pipelines against each other: the file export writes for the
    networks an import sent is a file import reads back as the very same
    networks. */
module RoundTrip {
  import opened Wrappers
  import opened PyText
  import opened Decimals
  import opened Json
  import opened Validators
  import opened Locations
  import opened Hierarchy
  import opened Export
  import opened Importer

  /** The cell export writes for an optional text field. */
  function TextCell(v: Option<string>): string {
    match v
    case None => "N/A"
    case Some(s) => s
  }

  /** The cell export writes for an optional location. */
  function PointCellText(p: Option<Point>): string {
    match p
    case None => "N/A"
    case Some(q) => LocationText(q)
  }

  /** The row export writes for a network, in the column order. */
  function NetworkRow(n: Network): (row: seq<string>)
    ensures |row| == |Columns|
  {
    [IntText(n.id), TextCell(n.group), TextCell(n.name), TextCell(n.cidr), n.description,
     IntText(n.domainId), PointCellText(n.location), TextCell(n.countryCode)]
  }

  /** The list the remote answers after it stored the networks sent. */
  function Stored(ns: seq<Network>): (entries: seq<Json>)
    ensures |entries| == |ns|
  {
    seq(|ns|, i requires 0 <= i < |ns| => NetworkJson(ns[i]))
  }

  /** The sentinel export writes for a missing field is no valid name,
      group, CIDR block, location or country code. */
  lemma SentinelIsNoValue()
    ensures !ValidNetworkNameFormat("N/A") && !ValidGroupFormat("N/A")
    ensures !ValidCidrFormat("N/A")
    ensures Strip("N/A") == "N/A" && !ValidLocationFormat("N/A")
  {
    SentinelIsNoName();
    SentinelIsNoCidr();
    StripTrimmed("N/A");
    SentinelsAreNoLocation();
  }

  lemma SentinelIsNoName()
    ensures !ValidNetworkNameFormat("N/A") && !ValidGroupFormat("N/A")
  {
    assert DollarBody("N/A") == "N/A";
    assert !IsGroupChar("N/A"[1]);
  }

  lemma SentinelIsNoCidr()
    ensures !ValidCidrFormat("N/A")
  {
    assert Split("N/A", '/') == ["N", "A"] by {
      assert IndexOf("N/A", '/') == 1;
      assert Split("A", '/') == ["A"];
      assert "N/A"[..1] == "N" && "N/A"[2..] == "A";
    }
    assert Split("N", '.') == ["N"];
  }

  /** Export writes for the dict import sends exactly the row of the
      network, and does not raise. */
  lemma ExportWritesNetworkRow(n: Network)
    ensures ExportEntry(NetworkJson(n)).Ok?
    ensures ExportEntry(NetworkJson(n)).value.1 == NetworkRow(n)
  {
    var entry := NetworkJson(n);
    LocationOfNetwork(n);
    ExportEntryRow(entry);
    var row := ExportEntry(entry).value.1;
    forall k | 0 <= k < |Columns| && k != 6
      ensures row[k] == NetworkRow(n)[k]
    {
      NetworkGet(n, Columns[k]);
      WrittenColumn(n, k);
    }
    RowCells(n);
  }

  /** The location cell of the dict import sends for a network. */
  lemma LocationOfNetwork(n: Network)
    ensures LocationCell(GetOr(NetworkJson(n).members, "location", JObject([]))) == Ok(PointCellText(n.location))
  {
    NetworkGet(n, "location");
    if n.location.Some? {
      PointCell(n.location.value);
    } else {
      NotAPointCell(JObject([]));
    }
  }

  /** What export writes for the value stored under a key, if any. */
  function Written(v: Option<Json>): string {
    match v
    case None => "N/A"
    case Some(j) => CsvField(j)
  }

  /** Every column but the location holds the network's own field. */
  lemma WrittenColumn(n: Network, k: nat)
    requires k < |Columns| && k != 6
    ensures Written(NetworkField(n, Columns[k])) == NetworkRow(n)[k]
  {
    RowCells(n);
    if k == 0 {
      assert NetworkField(n, Columns[k]) == Some(IntJson(n.id));
      WrittenInt(n.id);
    } else if k == 1 {
      assert NetworkField(n, Columns[k]) == StrOption(n.group);
      WrittenText(n.group);
    } else if k == 2 {
      assert NetworkField(n, Columns[k]) == StrOption(n.name);
      WrittenText(n.name);
    } else if k == 3 {
      assert NetworkField(n, Columns[k]) == StrOption(n.cidr);
      WrittenText(n.cidr);
    } else if k == 4 {
      assert NetworkField(n, Columns[k]) == Some(JStr(n.description));
    } else if k == 5 {
      assert NetworkField(n, Columns[k]) == Some(IntJson(n.domainId));
      WrittenInt(n.domainId);
    } else {
      assert NetworkField(n, Columns[k]) == StrOption(n.countryCode);
      WrittenText(n.countryCode);
    }
  }

  lemma WrittenInt(i: int)
    ensures Written(Some(IntJson(i))) == IntText(i)
  {
  }

  lemma WrittenText(s: Option<string>)
    ensures Written(StrOption(s)) == TextCell(s)
  {
  }

  /** Import reads the row of a canonical network back as that network,
      when its location is one repr() writes without an exponent. */
  lemma NetworkRowImports(n: Network)
    requires Canonical(n) && Reexportable(n)
    ensures BuildNetwork(NetworkRow(n)) == Ok(n)
  {
    IdCellsImport(n);
    TextCellsImport(n);
    PlaceCellsImport(n);
    BuildFromFields(NetworkRow(n), n);
  }

  lemma IdCellsImport(n: Network)
    ensures ParseInt(NetworkRow(n)[0]) == Some(n.id) && ParseInt(NetworkRow(n)[5]) == Some(n.domainId)
    ensures NetworkRow(n)[4] == n.description
  {
    RowCells(n);
    ParseIntText(n.id);
    ParseIntText(n.domainId);
  }

  lemma TextCellsImport(n: Network)
    requires Canonical(n)
    ensures NameField(NetworkRow(n)[2]) == n.name && CidrField(NetworkRow(n)[3]) == n.cidr
    ensures GroupField(NetworkRow(n)[1]) == n.group
  {
    RowCells(n);
    NameRowImports(n.name);
    CidrRowImports(n.cidr);
    GroupRowImports(n.group);
  }

  lemma PlaceCellsImport(n: Network)
    requires Canonical(n) && Reexportable(n)
    ensures LocationField(NetworkRow(n)[6]) == n.location && CountryField(NetworkRow(n)[7]) == n.countryCode
  {
    RowCells(n);
    LocationRowImports(n.location);
    CountryRowImports(n.countryCode);
  }

  /** The cells of the row of a network, one by one. */
  lemma RowCells(n: Network)
    ensures NetworkRow(n)[0] == IntText(n.id) && NetworkRow(n)[1] == TextCell(n.group)
    ensures NetworkRow(n)[2] == TextCell(n.name) && NetworkRow(n)[3] == TextCell(n.cidr)
    ensures NetworkRow(n)[4] == n.description && NetworkRow(n)[5] == IntText(n.domainId)
    ensures NetworkRow(n)[6] == PointCellText(n.location) && NetworkRow(n)[7] == TextCell(n.countryCode)
  {
  }

  /** Import builds the network whose fields the cells of a row read as. */
  lemma BuildFromFields(row: seq<string>, n: Network)
    requires |row| == |Columns|
    requires ParseInt(row[0]) == Some(n.id) && ParseInt(row[5]) == Some(n.domainId) && row[4] == n.description
    requires NameField(row[2]) == n.name && CidrField(row[3]) == n.cidr && GroupField(row[1]) == n.group
    requires LocationField(row[6]) == n.location && CountryField(row[7]) == n.countryCode
    ensures BuildNetwork(row) == Ok(n)
  {
  }

  lemma NameRowImports(name: Option<string>)
    requires name.Some? ==> ValidNetworkNameFormat(name.value) && DollarBody(name.value) == name.value
    ensures NameField(TextCell(name)) == name
  {
    SentinelIsNoValue();
    if name.Some? {
      assert TextCell(name) == name.value;
    } else {
      assert TextCell(name) == "N/A";
    }
  }

  lemma CidrRowImports(cidr: Option<string>)
    requires cidr.Some? ==> ValidCidrFormat(cidr.value)
    ensures CidrField(TextCell(cidr)) == cidr
  {
    SentinelIsNoValue();
    if cidr.Some? {
      assert TextCell(cidr) == cidr.value;
    } else {
      assert TextCell(cidr) == "N/A";
    }
  }

  lemma GroupRowImports(group: Option<string>)
    requires group.Some? ==> ValidGroupFormat(group.value) && DollarBody(group.value) == group.value
    ensures GroupField(TextCell(group)) == group
  {
    SentinelIsNoValue();
    if group.Some? {
      assert TextCell(group) == group.value;
    } else {
      assert TextCell(group) == "N/A";
    }
  }

  lemma LocationRowImports(p: Option<Point>)
    requires p.Some? ==> IsFloatRepr(p.value.lat) && IsFloatRepr(p.value.lon) && InRange(p.value.lat, p.value.lon)
    requires p.Some? ==> PositionalRepr(p.value.lat) && PositionalRepr(p.value.lon)
    ensures LocationField(PointCellText(p)) == p
  {
    SentinelIsNoValue();
    if p.Some? {
      assert PointCellText(p) == LocationText(p.value);
      ExportedPointReimports(p.value);
    } else {
      assert PointCellText(p) == "N/A";
    }
  }

  lemma CountryRowImports(code: Option<string>)
    requires code.Some? ==> |code.value| == 2 && IsUpper(code.value[0]) && IsUpper(code.value[1])
    ensures CountryField(TextCell(code)) == code
  {
    StripTrimmed("N/A");
    if code.Some? {
      StripTrimmed(code.value);
    }
  }

  /** Export of the stored networks does not raise, and writes their rows in
      order. */
  lemma ExportStored(ns: seq<Network>)
    ensures ExportRows(Stored(ns)).error == None
    ensures ExportRows(Stored(ns)).rows == seq(|ns|, i requires 0 <= i < |ns| => NetworkRow(ns[i]))
  {
    var es := Stored(ns);
    var rows := seq(|ns|, i requires 0 <= i < |ns| => NetworkRow(ns[i]));
    forall i | 0 <= i < |es|
      ensures ExportEntry(es[i]).Ok? && ExportEntry(es[i]).value.1 == rows[i]
    {
      ExportWritesNetworkRow(ns[i]);
    }
    ExportAllWritten(es, rows);
  }

  /** Import of the rows of canonical, re-exportable networks builds those
      networks. */
  lemma ImportRows(ns: seq<Network>)
    requires forall i :: 0 <= i < |ns| ==> Canonical(ns[i]) && Reexportable(ns[i])
    ensures BatchOf(seq(|ns|, i requires 0 <= i < |ns| => NetworkRow(ns[i]))) == Ok(ns)
  {
    var rows := seq(|ns|, i requires 0 <= i < |ns| => NetworkRow(ns[i]));
    forall i | 0 <= i < |ns|
      ensures rows[i] != [] && BuildNetwork(rows[i]) == Ok(ns[i])
    {
      assert |rows[i]| == |Columns|;
      NetworkRowImports(ns[i]);
    }
    CollectAllBuilt(BuildNetwork, rows, ns);
  }

  /** Export, then import of the file it wrote: with the backup (if the
      switch wants one) in order and a truthy PUT answer, the import sends
      back exactly the canonical networks the remote held, and reports
      their number, provided repr() writes every coordinate without an
      exponent. */
  lemma ExportThenImport(ns: seq<Network>, config: Config, answer: Json)
    requires forall i :: 0 <= i < |ns| ==> Canonical(ns[i]) && Reexportable(ns[i])
    requires Truthy(answer)
    ensures var lines := [Columns] + ExportRows(Stored(ns)).rows;
      ImportCsvRun(config, true, Rows(lines), answer) == ImportRun(SafetyOn(config), Some(ns), Imported(|ns|))
  {
    var lines := [Columns] + ExportRows(Stored(ns)).rows;
    ExportStored(ns);
    ImportRows(ns);
    assert lines[0] == Columns && lines[1..] == ExportRows(Stored(ns)).rows;
    BatchImported(config, Rows(lines), answer, ns);
  }

  /** Import, export, import: what an import sent comes back unchanged from
      a second import of the exported file, when no coordinate of it is one
      repr() writes with an exponent. */
  lemma ImportIsStable(rows: seq<seq<string>>, ns: seq<Network>)
    requires BatchOf(rows) == Ok(ns)
    requires forall i :: 0 <= i < |ns| ==> Reexportable(ns[i])
    ensures BatchOf(seq(|ns|, i requires 0 <= i < |ns| => NetworkRow(ns[i]))) == Ok(ns)
  {
    BatchIsCanonical(rows);
    ImportRows(ns);
  }
}
