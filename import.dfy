/** The import pipeline, import_csv_to_qradar: the safety backup, the header
    check, one network per row (validated fields kept, invalid ones
    dropped, a malformed row aborting everything) and the single bulk PUT
    of the whole batch. */
module Importer {
  import opened Wrappers
  import opened PyText
  import opened Decimals
  import opened Json
  import opened Validators
  import opened Locations
  import opened Hierarchy

  // ----- Configuration -----

  /** The operating configuration as import reads it: the value of the
      safety key, when the key is there. */
  datatype Config = Config(safety: Option<string>)

  /** s.lower() == "off": no character but 'O' lowers to 'o' and none but
      'F' lowers to 'f'. */
  predicate SaysOff(s: string) {
    && |s| == 3
    && (s[0] == 'o' || s[0] == 'O')
    && (s[1] == 'f' || s[1] == 'F')
    && (s[2] == 'f' || s[2] == 'F')
  }

  /** The safety switch is on when the key is present and its value is not
      "off" in any letter case; a missing key counts as off. */
  predicate SafetyOn(config: Config) {
    config.safety.Some? && !SaysOff(config.safety.value)
  }

  // ----- The file -----

  /** The file as csv.reader reads it: its rows of fields, or Unreadable when
      it cannot be opened, decoded or parsed. */
  datatype CsvFile = Unreadable | Rows(rows: seq<seq<string>>)

  /** reader.fieldnames == expected_header: DictReader takes the first row
      as the field names, and an empty file has none. */
  predicate HeaderMatches(file: CsvFile) {
    file.Rows? && |file.rows| > 0 && file.rows[0] == Columns
  }

  // ----- One row -----

  /** Why a row aborts the import: a column DictReader filled with None
      because the row is short, or an id that int() rejects. */
  datatype RowError = MissingValue(column: string) | NotAnInteger(column: string)

  /** int(row[column]) for the column at index k of the header. */
  function IntCell(row: seq<string>, k: nat): Result<int, RowError>
    requires k < |Columns|
  {
    if |row| <= k then Err(MissingValue(Columns[k]))
    else
      match ParseInt(row[k])
      case None => Err(NotAnInteger(Columns[k]))
      case Some(i) => Ok(i)
  }

  /** The name import sends: the raw value stripped, present only when the
      raw value passes valid_network_name_format. What it sends is the
      matched name itself, and is valid in turn. */
  function NameField(raw: string): (name: Option<string>)
    ensures name.Some? <==> ValidNetworkNameFormat(raw)
    ensures name.Some? ==> name.value == DollarBody(raw) && ValidNetworkNameFormat(name.value)
  {
    if ValidNetworkNameFormat(raw) then
      StrippedNameStaysValid(raw);
      Some(Strip(raw))
    else None
  }

  /** The CIDR block import sends: the raw value stripped, present only when
      the raw value passes valid_cidr_format; stripping never changes it. */
  function CidrField(raw: string): (cidr: Option<string>)
    ensures cidr.Some? <==> ValidCidrFormat(raw)
    ensures cidr.Some? ==> cidr.value == raw
  {
    if ValidCidrFormat(raw) then
      ValidCidrIsStripped(raw);
      Some(Strip(raw))
    else None
  }

  /** The group import sends: as the name, with valid_group_format. */
  function GroupField(raw: string): (group: Option<string>)
    ensures group.Some? <==> ValidGroupFormat(raw)
    ensures group.Some? ==> group.value == DollarBody(raw) && ValidGroupFormat(group.value)
  {
    if ValidGroupFormat(raw) then
      StrippedNameStaysValid(raw);
      Some(Strip(raw))
    else None
  }

  /** The location import sends: nothing for an empty cell or "N/A", nothing
      either (the row is kept) when valid_location_format rejects the
      stripped text, and otherwise format_location of it. The "N/A" test is
      subsumed by the format check, and the point is in range and made of
      Python floats. */
  function LocationField(raw: string): (p: Option<Point>)
    ensures p.Some? <==> ValidLocationFormat(Strip(raw))
    ensures p.Some? ==> InRange(p.value.lat, p.value.lon)
    ensures p.Some? ==> IsFloatRepr(p.value.lat) && IsFloatRepr(p.value.lon)
    ensures p.Some? ==> p.value == FormatLocation(Strip(raw))
  {
    var v := Strip(raw);
    SentinelsAreNoLocation();
    if v != "" && v != "N/A" && ValidLocationFormat(v) then Some(FormatLocation(v)) else None
  }

  /** The empty cell and "N/A" never pass the location check. */
  lemma SentinelsAreNoLocation()
    ensures !ValidLocationFormat("") && !ValidLocationFormat("N/A")
  {
    NoCommaNoLocation("");
    NoCommaNoLocation("N/A");
  }

  /** Text without a comma never matches the location pattern. */
  lemma NoCommaNoLocation(s: string)
    requires ',' !in s
    ensures !ValidLocationFormat(s)
  {
    var body := DollarBody(s);
    assert ',' !in body by {
      if body != s {
        assert forall i :: 0 <= i < |body| ==> body[i] == s[i];
      }
    }
    assert Split(body, ',') == [body];
  }

  /** The country code import sends: nothing for an empty cell or "N/A",
      nothing (the row is kept) when valid_country_code_format rejects it,
      otherwise the stripped code, which is two upper-case letters. */
  function CountryField(raw: string): (code: Option<string>)
    ensures code.Some? <==> |Strip(raw)| == 2 && IsUpper(Strip(raw)[0]) && IsUpper(Strip(raw)[1])
    ensures code.Some? ==> code.value == Strip(raw)
  {
    var v := Strip(raw);
    CountryCodeSpec(v);
    if v != "" && v != "N/A" && ValidCountryCodeFormat(v) then Some(v) else None
  }

  /** One row of the loop: id, description and domain id always (the ids
      through int()), then each optional field as validated. A row too short
      for a column reads None there, which int() and strip() reject. */
  function BuildNetwork(row: seq<string>): (r: Result<Network, RowError>)
    ensures r.Ok? <==> |row| >= |Columns| && ParseInt(row[0]).Some? && ParseInt(row[5]).Some?
    ensures r.Ok? ==>
      && r.value.id == ParseInt(row[0]).value
      && r.value.domainId == ParseInt(row[5]).value
      && r.value.description == row[4]
    ensures r.Ok? ==>
      && r.value.name == NameField(row[2]) && r.value.cidr == CidrField(row[3])
      && r.value.group == GroupField(row[1]) && r.value.location == LocationField(row[6])
      && r.value.countryCode == CountryField(row[7])
  {
    match IntCell(row, 0)
    case Err(e) => Err(e)
    case Ok(id) =>
      match IntCell(row, 5)
      case Err(e) => Err(e)
      case Ok(domainId) =>
        if |row| < 7 then Err(MissingValue("location"))
        else if |row| < 8 then Err(MissingValue("country_code"))
        else Ok(NetworkOfCells(row, id, domainId))
  }

  /** The network of a full row whose ids int() has read. */
  function NetworkOfCells(row: seq<string>, id: int, domainId: int): Network
    requires |row| >= |Columns|
  {
    Network(id, row[4], domainId, NameField(row[2]), CidrField(row[3]), GroupField(row[1]),
            LocationField(row[6]), CountryField(row[7]))
  }

  /** The error a row aborts with is the first failing step in the order the
      source evaluates them: the id, then the domain id, then the location
      and country code cells that strip() needs. */
  lemma RowErrorOrder(row: seq<string>)
    requires row != []
    ensures ParseInt(row[0]).None? ==> BuildNetwork(row) == Err(NotAnInteger("id"))
    ensures ParseInt(row[0]).Some? && |row| < 6 ==> BuildNetwork(row) == Err(MissingValue("domain_id"))
    ensures ParseInt(row[0]).Some? && |row| >= 6 && ParseInt(row[5]).None? ==>
      BuildNetwork(row) == Err(NotAnInteger("domain_id"))
    ensures ParseInt(row[0]).Some? && |row| == 6 && ParseInt(row[5]).Some? ==>
      BuildNetwork(row) == Err(MissingValue("location"))
    ensures ParseInt(row[0]).Some? && |row| == 7 && ParseInt(row[5]).Some? ==>
      BuildNetwork(row) == Err(MissingValue("country_code"))
  {
    if ParseInt(row[0]).None? {
      IdFailsFirst(row);
    } else if |row| < 6 {
      DomainIdMissing(row);
    } else if ParseInt(row[5]).None? {
      DomainIdFails(row);
    } else if |row| < 8 {
      OptionalCellMissing(row);
    }
  }

  lemma IdFailsFirst(row: seq<string>)
    requires row != [] && ParseInt(row[0]).None?
    ensures BuildNetwork(row) == Err(NotAnInteger("id"))
  {
    assert IntCell(row, 0) == Err(NotAnInteger("id"));
  }

  lemma DomainIdMissing(row: seq<string>)
    requires row != [] && ParseInt(row[0]).Some? && |row| < 6
    ensures BuildNetwork(row) == Err(MissingValue("domain_id"))
  {
    IdColumns();
    assert IntCell(row, 0).Ok?;
    assert IntCell(row, 5) == Err(MissingValue("domain_id"));
  }

  lemma DomainIdFails(row: seq<string>)
    requires |row| >= 6 && ParseInt(row[0]).Some? && ParseInt(row[5]).None?
    ensures BuildNetwork(row) == Err(NotAnInteger("domain_id"))
  {
    IdColumns();
    assert IntCell(row, 0).Ok?;
    assert IntCell(row, 5) == Err(NotAnInteger("domain_id"));
  }

  /** The names of the two id columns. */
  lemma IdColumns()
    ensures Columns[0] == "id" && Columns[5] == "domain_id"
  {
  }

  lemma OptionalCellMissing(row: seq<string>)
    requires 6 <= |row| < 8 && ParseInt(row[0]).Some? && ParseInt(row[5]).Some?
    ensures BuildNetwork(row) == Err(MissingValue(if |row| == 6 then "location" else "country_code"))
  {
    assert IntCell(row, 0).Ok? && IntCell(row, 5).Ok?;
  }

  /** Every network import builds holds only values import itself accepts:
      the form the round trip through export preserves. */
  lemma BuiltNetworkIsCanonical(row: seq<string>)
    requires BuildNetwork(row).Ok?
    ensures Canonical(BuildNetwork(row).value)
  {
    var n := BuildNetwork(row).value;
    if n.name.Some? {
      GroupBodyHasNoNewline(row[2]) by { NameIsGroup(row[2]); }
    }
    if n.group.Some? {
      GroupBodyHasNoNewline(row[1]);
    }
  }

  // ----- The batch -----

  /** The rows DictReader yields: it skips rows with no fields at all. */
  function NonBlank(rows: seq<seq<string>>): (kept: seq<seq<string>>)
    ensures |kept| <= |rows|
    ensures forall i :: 0 <= i < |kept| ==> kept[i] != []
    ensures forall r :: r != [] ==> multiset(kept)[r] == multiset(rows)[r]
    ensures forall r :: r in kept <==> r in rows && r != []
  {
    if rows == [] then []
    else
      var head := if rows[0] == [] then [] else [rows[0]];
      var rest := NonBlank(rows[1..]);
      assert rows == [rows[0]] + rows[1..];
      assert multiset(rows) == multiset{rows[0]} + multiset(rows[1..]);
      assert multiset(head + rest) == multiset(head) + multiset(rest);
      head + rest
  }

  /** The rows are kept in their order: skipping blank rows from two runs of
      rows one after the other skips them from each run in turn. */
  lemma {:induction false} NonBlankAppend(a: seq<seq<string>>, b: seq<seq<string>>)
    ensures NonBlank(a + b) == NonBlank(a) + NonBlank(b)
    decreases |a|
  {
    if a == [] {
      assert a + b == b;
    } else {
      assert (a + b)[0] == a[0] && (a + b)[1..] == a[1..] + b;
      NonBlankAppend(a[1..], b);
    }
  }

  /** A loop over rows that skips blank ones, builds every other one in
      order, and stops at the first that fails. */
  function Collect(build: seq<string> -> Result<Network, RowError>, rows: seq<seq<string>>): Result<seq<Network>, RowError> {
    if rows == [] then Ok([])
    else if rows[0] == [] then Collect(build, rows[1..])
    else
      match build(rows[0])
      case Err(e) => Err(e)
      case Ok(n) =>
        match Collect(build, rows[1..])
        case Err(e) => Err(e)
        case Ok(ns) => Ok([n] + ns)
  }

  /** All or nothing: the loop collects its rows exactly when every
      non-blank row builds. */
  lemma {:induction false} CollectAllOrNothing(build: seq<string> -> Result<Network, RowError>, rows: seq<seq<string>>)
    ensures Collect(build, rows).Ok? <==> forall i :: 0 <= i < |rows| && rows[i] != [] ==> build(rows[i]).Ok?
    decreases |rows|
  {
    if rows != [] {
      CollectAllOrNothing(build, rows[1..]);
      assert forall i :: 0 < i < |rows| ==> rows[i] == rows[1..][i - 1];
    }
  }

  /** What the loop collects holds one value per non-blank row, in order,
      each built from its row. */
  lemma {:induction false} CollectFollowsRows(build: seq<string> -> Result<Network, RowError>, rows: seq<seq<string>>)
    requires Collect(build, rows).Ok?
    ensures |Collect(build, rows).value| == |NonBlank(rows)|
    ensures forall j :: 0 <= j < |NonBlank(rows)| ==> build(NonBlank(rows)[j]) == Ok(Collect(build, rows).value[j])
    decreases |rows|
  {
    if rows != [] {
      CollectFollowsRows(build, rows[1..]);
      if rows[0] != [] {
        assert NonBlank(rows) == [rows[0]] + NonBlank(rows[1..]);
      } else {
        assert NonBlank(rows) == [] + NonBlank(rows[1..]);
      }
    }
  }

  /** A loop that fails fails with the error of some non-blank row, every
      non-blank row before which builds. */
  lemma {:induction false} CollectFailsAtFirstBadRow(build: seq<string> -> Result<Network, RowError>, rows: seq<seq<string>>)
    returns (i: nat)
    requires Collect(build, rows).Err?
    ensures i < |rows| && rows[i] != [] && build(rows[i]) == Err(Collect(build, rows).error)
    ensures forall j :: 0 <= j < i && rows[j] != [] ==> build(rows[j]).Ok?
    decreases |rows|
  {
    if rows[0] != [] && build(rows[0]).Err? {
      i := 0;
    } else {
      var k := CollectFailsAtFirstBadRow(build, rows[1..]);
      i := k + 1;
      assert forall j :: 0 < j < |rows| ==> rows[j] == rows[1..][j - 1];
    }
  }

  /** Rows that are none of them blank and each build into its network
      collect into exactly those networks, in order. */
  lemma {:induction false} CollectAllBuilt(build: seq<string> -> Result<Network, RowError>, rows: seq<seq<string>>, ns: seq<Network>)
    requires |rows| == |ns|
    requires forall i :: 0 <= i < |rows| ==> rows[i] != [] && build(rows[i]) == Ok(ns[i])
    ensures Collect(build, rows) == Ok(ns)
    decreases |rows|
  {
    if rows != [] {
      CollectAllBuilt(build, rows[1..], ns[1..]);
      assert [ns[0]] + ns[1..] == ns;
    }
  }

  /** The loop of import_csv_to_qradar over the data rows. */
  function BatchOf(rows: seq<seq<string>>): Result<seq<Network>, RowError> {
    Collect(BuildNetwork, rows)
  }

  /** Every network of a built batch is canonical. */
  lemma BatchIsCanonical(rows: seq<seq<string>>)
    requires BatchOf(rows).Ok?
    ensures forall j :: 0 <= j < |BatchOf(rows).value| ==> Canonical(BatchOf(rows).value[j])
  {
    CollectFollowsRows(BuildNetwork, rows);
    forall j | 0 <= j < |BatchOf(rows).value|
      ensures Canonical(BatchOf(rows).value[j])
    {
      BuiltNetworkIsCanonical(NonBlank(rows)[j]);
    }
  }

  /** The loop of import_csv_to_qradar over the data rows: builds one
      network per non-blank row and stops at the first row that fails. */
  method BuildBatch(rows: seq<seq<string>>) returns (r: Result<seq<Network>, RowError>)
    ensures r == BatchOf(rows)
  {
    var batch: seq<Network> := [];
    var i := 0;
    assert rows[i..] == rows;
    assert BatchOf(rows).Ok? ==> batch + BatchOf(rows).value == BatchOf(rows).value;
    while i < |rows|
      invariant 0 <= i <= |rows|
      invariant BatchOf(rows) == Continue(batch, BatchOf(rows[i..]))
    {
      BatchStep(rows, i);
      if rows[i] != [] {
        var built := BuildNetwork(rows[i]);
        if built.Err? {
          return Err(built.error);
        }
        ContinueAppend(batch, built.value, BatchOf(rows[i + 1..]));
        batch := batch + [built.value];
      }
      i := i + 1;
    }
    assert rows[i..] == [];
    assert batch + [] == batch;
    r := Ok(batch);
  }

  /** The batch of the whole file, given the networks built so far and the
      batch of the rows still to go. */
  function Continue(batch: seq<Network>, rest: Result<seq<Network>, RowError>): Result<seq<Network>, RowError> {
    match rest
    case Ok(ns) => Ok(batch + ns)
    case Err(e) => Err(e)
  }

  lemma BatchStep(rows: seq<seq<string>>, i: nat)
    requires i < |rows|
    ensures rows[i..] != [] && rows[i..][0] == rows[i] && rows[i..][1..] == rows[i + 1..]
  {
  }

  lemma ContinueAppend(batch: seq<Network>, n: Network, rest: Result<seq<Network>, RowError>)
    ensures Continue(batch, match rest case Err(e) => Err(e) case Ok(ns) => Ok([n] + ns))
         == Continue(batch + [n], rest)
  {
    if rest.Ok? {
      assert batch + ([n] + rest.value) == (batch + [n]) + rest.value;
    }
  }

  // ----- The whole import -----

  /** How import_csv_to_qradar ends: the number of networks sent (on a
      truthy PUT answer), False, or an exception escaping it. */
  datatype Outcome = Imported(count: nat) | Failed | Raised

  /** What an import does: whether it takes a backup, the batch it PUTs (if
      it gets that far) and how it ends. */
  datatype ImportRun = ImportRun(backedUp: bool, sent: Option<seq<Network>>, outcome: Outcome)

  /** Everything after the safety step: the header check, the rows, and the
      PUT of the whole batch, whose answer decides the outcome. */
  function AfterSafety(backedUp: bool, file: CsvFile, answer: Json): ImportRun {
    if !HeaderMatches(file) then ImportRun(backedUp, None, Failed)
    else
      match BatchOf(file.rows[1..])
      case Err(_) => ImportRun(backedUp, None, Failed)
      case Ok(ns) => ImportRun(backedUp, Some(ns), if Truthy(answer) then Imported(|ns|) else Failed)
  }

  /** import_csv_to_qradar as the source writes it: with the switch on the
      backup's result is assigned and never read; with it off the check
      of the result, nested in that branch, reads a local that was never
      assigned. */
  function ImportCsvAsWritten(config: Config, backupOk: bool, file: CsvFile, answer: Json): ImportRun {
    if SafetyOn(config) then AfterSafety(true, file, answer)
    else ImportRun(false, None, Raised)
  }

  /** import_csv_to_qradar with the backup check where it belongs: with the
      switch on a failed backup aborts before anything is sent; with it off
      the import goes ahead without a backup. */
  function ImportCsvRun(config: Config, backupOk: bool, file: CsvFile, answer: Json): ImportRun {
    if SafetyOn(config) && !backupOk then ImportRun(true, None, Failed)
    else AfterSafety(SafetyOn(config), file, answer)
  }

  /** The import, step by step: `backupOk` is what the backup would return
      and `answer` what the PUT would answer. */
  method ImportCsv(config: Config, backupOk: bool, file: CsvFile, answer: Json) returns (run: ImportRun)
    ensures run == ImportCsvRun(config, backupOk, file, answer)
  {
    var backedUp := false;
    if SafetyOn(config) {
      backedUp := true;
      if !backupOk {
        return ImportRun(true, None, Failed);
      }
    }
    if !HeaderMatches(file) {
      return ImportRun(backedUp, None, Failed);
    }
    var batch := BuildBatch(file.rows[1..]);
    if batch.Err? {
      return ImportRun(backedUp, None, Failed);
    }
    var outcome := if Truthy(answer) then Imported(|batch.value|) else Failed;
    return ImportRun(backedUp, Some(batch.value), outcome);
  }

  /** The import ends in one of its two results, and takes a backup exactly
      when the switch is on; it sends a batch exactly when the backup (if
      any) succeeded, the header matches and every non-blank row builds, and
      it reports a count exactly when, in addition, the PUT answers truthy. */
  lemma ImportOutcomes(config: Config, backupOk: bool, file: CsvFile, answer: Json)
    ensures ImportCsvRun(config, backupOk, file, answer).outcome != Raised
    ensures ImportCsvRun(config, backupOk, file, answer).backedUp <==> SafetyOn(config)
    ensures ImportCsvRun(config, backupOk, file, answer).sent.Some? <==>
      && (SafetyOn(config) ==> backupOk)
      && HeaderMatches(file)
      && forall i :: 1 <= i < |file.rows| && file.rows[i] != [] ==> BuildNetwork(file.rows[i]).Ok?
    ensures ImportCsvRun(config, backupOk, file, answer).outcome.Imported? <==>
      ImportCsvRun(config, backupOk, file, answer).sent.Some? && Truthy(answer)
  {
    if HeaderMatches(file) {
      var data := file.rows[1..];
      CollectAllOrNothing(BuildNetwork, data);
      assert forall i :: 1 <= i < |file.rows| ==> file.rows[i] == data[i - 1];
      assert forall i :: 0 <= i < |data| ==> data[i] == file.rows[i + 1];
    }
  }

  /** A header that is not the fixed column list (or a file that cannot be
      read) fails the import before anything is sent. */
  lemma HeaderGuard(config: Config, backupOk: bool, file: CsvFile, answer: Json)
    requires !HeaderMatches(file)
    ensures ImportCsvRun(config, backupOk, file, answer).sent == None
    ensures ImportCsvRun(config, backupOk, file, answer).outcome == Failed
  {
  }

  /** No PUT without a backup when the switch is on: the batch is sent only
      after a backup that succeeded. */
  lemma NoPutWithoutBackup(config: Config, backupOk: bool, file: CsvFile, answer: Json)
    requires ImportCsvRun(config, backupOk, file, answer).sent.Some?
    ensures SafetyOn(config) ==> backupOk && ImportCsvRun(config, backupOk, file, answer).backedUp
  {
  }

  /** With the switch off (or absent) the import skips the backup and goes
      on exactly as it would after a successful one. */
  lemma SafetyOffProceeds(config: Config, backupOk: bool, file: CsvFile, answer: Json)
    requires !SafetyOn(config)
    ensures ImportCsvRun(config, backupOk, file, answer) == ImportCsvRun(Config(Some("on")), true, file, answer).(backedUp := false)
  {
  }

  /** One bad row aborts the whole import: nothing is sent. */
  lemma RowAbort(config: Config, backupOk: bool, file: CsvFile, answer: Json, i: nat)
    requires file.Rows? && 1 <= i < |file.rows| && file.rows[i] != [] && BuildNetwork(file.rows[i]).Err?
    ensures ImportCsvRun(config, backupOk, file, answer).sent == None
    ensures ImportCsvRun(config, backupOk, file, answer).outcome == Failed
  {
    var data := file.rows[1..];
    assert data[i - 1] == file.rows[i];
    CollectAllOrNothing(BuildNetwork, data);
    assert data[i - 1] != [] && BuildNetwork(data[i - 1]).Err?;
    assert BatchOf(data).Err?;
  }

  /** A successful import reports the number of networks it sent, one per
      non-blank data row in file order, each canonical. */
  lemma CountOnSuccess(config: Config, backupOk: bool, file: CsvFile, answer: Json)
    requires ImportCsvRun(config, backupOk, file, answer).outcome.Imported?
    ensures file.Rows? && |file.rows| > 0
    ensures ImportCsvRun(config, backupOk, file, answer).sent.Some?
    ensures var ns := ImportCsvRun(config, backupOk, file, answer).sent.value;
      && ImportCsvRun(config, backupOk, file, answer).outcome.count == |ns| == |NonBlank(file.rows[1..])|
      && (forall j :: 0 <= j < |ns| ==> BuildNetwork(NonBlank(file.rows[1..])[j]) == Ok(ns[j]))
      && (forall j :: 0 <= j < |ns| ==> Canonical(ns[j]))
  {
    CollectFollowsRows(BuildNetwork, file.rows[1..]);
    BatchIsCanonical(file.rows[1..]);
  }

  /** A readable file with the right header whose rows build into a batch,
      answered truthy after a backup that succeeded (or none was wanted),
      sends exactly that batch and reports its size. */
  lemma BatchImported(config: Config, file: CsvFile, answer: Json, ns: seq<Network>)
    requires HeaderMatches(file) && BatchOf(file.rows[1..]) == Ok(ns) && Truthy(answer)
    ensures ImportCsvRun(config, true, file, answer) == ImportRun(SafetyOn(config), Some(ns), Imported(|ns|))
  {
  }

  // ----- The source as written -----

  /** As written, the result of the backup is never read: a failed backup
      imports exactly as a successful one. */
  lemma AsWrittenIgnoresBackup(config: Config, file: CsvFile, answer: Json)
    ensures ImportCsvAsWritten(config, false, file, answer) == ImportCsvAsWritten(config, true, file, answer)
  {
  }

  /** With the switch on and a failed backup, the source as written still
      PUTs the batch (here the empty batch of a header-only file, answered
      truthy), where the corrected import sends nothing. */
  lemma FailedBackupStillImports()
    ensures ImportCsvAsWritten(Config(Some("on")), false, Rows([Columns]), JBool(true)) == ImportRun(true, Some([]), Imported(0))
    ensures ImportCsvRun(Config(Some("on")), false, Rows([Columns]), JBool(true)) == ImportRun(true, None, Failed)
  {
    assert Rows([Columns]).rows[1..] == [];
  }

  /** As written, the switch set to "off" (or no switch at all) makes every
      import raise, where the corrected import never does. */
  lemma AsWrittenRaisesWhenSafetyOff(config: Config, backupOk: bool, file: CsvFile, answer: Json)
    requires !SafetyOn(config)
    ensures ImportCsvAsWritten(config, backupOk, file, answer).outcome == Raised
    ensures ImportCsvRun(config, backupOk, file, answer).outcome != Raised
  {
  }

  /** The switch is off for "off" in any letter case and when the key is
      missing, and on for any other value, the empty string included. */
  lemma SafetySpellings()
    ensures !SafetyOn(Config(Some("off"))) && !SafetyOn(Config(Some("OFF"))) && !SafetyOn(Config(Some("oFf")))
    ensures !SafetyOn(Config(None))
    ensures SafetyOn(Config(Some("on"))) && SafetyOn(Config(Some(""))) && SafetyOn(Config(Some("off ")))
  {
  }
}
