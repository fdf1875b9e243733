# QRadar network hierarchy import/export, modelled in Dafny

This project models the synchronisation engine of `QRadarNetworkHierarchy`.
The engine copies a QRadar network hierarchy between the remote
configuration API and a local CSV file. It consists of:

- the field validators for network names, groups, CIDR blocks, locations
  and country codes;
- `format_location`, which turns `lat,lon` text into a GeoJSON-style point
  with the longitude first;
- `fetch_network_hierarchy` and `write_network_hierarchy_to_csv` (the
  export). The export writes the header, then one row per fetched network in
  the fixed column order. On the way it replaces each entry's location, in
  place, with its `lat,lon` text.
- `import_csv_to_qradar` (the import): the safety backup, the header check,
  one network per row, and the single bulk PUT of the whole batch. Invalid
  optional fields are dropped. A malformed row aborts everything.
- `check_domain`, the domain listing.

Modules, one file each:

- `Wrappers`: `Option` and `Result`.
- `PyText`: the Python `str` behaviour the engine relies on. This covers
  `strip`, `split`, `join`, `isspace`, and what `$` lets a regular expression
  match.
- `Decimals`: numerals, `int()` and `float()` as `repr` writes a float.
- `Json`: parsed JSON as Python holds it. Dicts are ordered member lists
  with `.get` and item assignment. It also covers truthiness and `str()`.
- `Validators`: the five validators, each with an explicit
  characterisation.
- `Locations`: `format_location` and the location text export writes.
- `Hierarchy`: the network import sends, and the column order.
- `Export`: fetch and export, including the in-place loop over an array of
  entries.
- `Importer`: the import, both as the source writes it and as corrected.
- `RoundTrip`: export against import.
- `Domains`: `check_domain`.

Some inputs are parameters of the model rather than actions it performs:

- the answers of the remote API (`make_request`) are `Json` parameters;
- the file is a list of rows, or `Unreadable`;
- the outcome of the backup is a boolean;
- the configuration is the value of the `safety` key, if that key is present.

The printed lines of `check_domain` are its result.

## Model

| member | source | states |
|---|---|---|
| Validators.GroupFormatSpec | qradarzoldaxclass.py:135-138 | A group is valid exactly when it is one or more of `A-Za-z0-9.-_`, optionally followed by one newline (what `$` lets through) |
| Validators.NameIsGroup | qradarzoldaxclass.py:161-164 | A value is a valid network name exactly when it is a valid group (the pattern of line 138) that contains no '.' |
| Validators.CountryCodeSpec | qradarzoldaxclass.py:130-133 | On a stripped value, the country code check holds exactly for two upper-case ASCII letters |
| Validators.LocationFormatSpec | qradarzoldaxclass.py:107-124 | A location is valid exactly when it reads `lat,` + whitespace + `lon` (decimal numerals, trailing newline allowed) with -90 <= lat <= 90 and -180 <= lon <= 180 |
| Validators.CidrFormatSpec | qradarzoldaxclass.py:147-159 | A CIDR block is valid exactly when it is four dot-separated octets of 1-3 digits, each at most 255, then '/' and a prefix of 1-2 digits at most 32, with no host bit set below the prefix (strict `ip_network`) |
| Validators.ValidCidrIsStripped | qradarzoldaxclass.py:263-268 | Stripping a valid CIDR block leaves it unchanged, so the block sent is the block validated |
| Validators.StrippedNameStaysValid | qradarzoldaxclass.py:254-261 | The stripped value of a valid name or group drops at most a final newline and is itself valid |
| Validators.GroupBodyHasNoNewline | qradarzoldaxclass.py:275-277 | The stored group of a valid raw group is not empty, its last character is not a newline, and taking the newline off again changes nothing |
| Validators.CidrAcceptedExample | qradarzoldaxclass.py:147-159 | `10.0.0.0/24` is accepted |
| Validators.CidrPrefixTooLongExample | qradarzoldaxclass.py:147-159 | `10.0.0.0/33` is refused |
| Validators.CidrOctetTooLargeExample | qradarzoldaxclass.py:147-159 | `999.0.0.0/24` passes the pattern but is refused by `ip_network` |
| Locations.FormatLocation | qradarzoldaxclass.py:140-145 | On a valid location, the latitude is `float()` of the first numeral and the longitude `float()` of the second, with the same values, in range |
| Locations.LocationPieces | qradarzoldaxclass.py:144 | `split(',')` of a matched location gives exactly two pieces, which parse as the two numerals the pattern matched |
| Locations.ExportedPointReimports | qradarzoldaxclass.py:206-207 | The `lat,lon` text export writes for a point of in-range floats, each of which `repr` writes without an exponent, is stripped, passes the location validator, and `format_location` reads it back as the same point |
| Locations.ImportedLocationReexports | qradarzoldaxclass.py:279-283 | A point the import built, if `repr` writes both its coordinates without an exponent, is written out by export as a valid location that reads back unchanged |
| Locations.SmallCoordinateNotReexported | qradarzoldaxclass.py:107-120 | Where that condition bites: `0.00005,1` is a valid location whose latitude `repr` writes as `5e-05`, and `5e-05,1.0` fails the location pattern |
| PyText.StripPadded | qradarzoldaxclass.py:254 | `strip()` removes exactly the whitespace around a trimmed string |
| PyText.Split | qradarzoldaxclass.py:144 | `split(sep)` gives at least one piece; no piece contains the separator; joining the pieces gives the string back |
| PyText.SplitJoin | qradarzoldaxclass.py:144 | Splitting undoes joining when no piece contains the separator |
| Decimals.ParseText | qradarzoldaxclass.py:109-114 | The numeral pattern reads every well-formed numeral back from its own text |
| Decimals.ToFloat | qradarzoldaxclass.py:114 | `float()` keeps the value and sign and gives the text `repr` writes |
| Decimals.FloatReprStable | qradarzoldaxclass.py:144 | `float()` of a float's own text is that float |
| Decimals.ParseIntText | qradarzoldaxclass.py:249-251 | `int()` reads back every integer that `str()` writes |
| Decimals.UnderscoresRemoved | qradarzoldaxclass.py:249-251 | `int()` drops the underscores between digits and keeps every other character, as often as it occurs; text without underscores is unchanged |
| Json.GetFinds | qradarzoldaxclass.py:204 | `.get` finds a value exactly when some member has the key, and the value it finds is stored under that key |
| Json.SetThenGet | qradarzoldaxclass.py:209 | After `entry[key] = v`, the key holds `v` and every other key holds what it held before |
| Hierarchy.NetworkGet | qradarzoldaxclass.py:248-296 | `.get` on the dict the import builds finds each key's own field (present or dropped) and nothing under any other key |
| Export.FetchedEntries | qradarzoldaxclass.py:168-187 | The fetch gives the list the GET answered, and nothing when the answer is not a list |
| Export.PointCell | qradarzoldaxclass.py:204-207 | The location of a point is written latitude first: the coordinate order is swapped back |
| Export.NotAPointCell | qradarzoldaxclass.py:205-206 | A missing location, or one that is not a point, is written as "N/A" |
| Export.LocationCellCases | qradarzoldaxclass.py:204-207 | Every location by cases, each as an if-and-only-if: a non-dict raises AttributeError; a non-point, or a point whose coordinates are a list, string or dict of other than two elements, is "N/A"; coordinates without `len()` raise TypeError; a two-member dict raises KeyError; a pair or a two-character string is written swapped |
| Export.Cells | qradarzoldaxclass.py:210 | One cell per column: the entry's value as csv writes it, or "N/A" for a missing key |
| Export.ExportEntryRow | qradarzoldaxclass.py:203-211 | A non-dict entry raises AttributeError; otherwise the turn raises exactly when the location does. The row has eight cells: the rendered location, and every other column's own value. The entry stores the rendered location and nothing else changes |
| Export.ExportRows | qradarzoldaxclass.py:203-211 | No more rows than entries, the entry list keeps its length, and every entry has a row when nothing raised |
| Export.ExportStopsAtFirstError | qradarzoldaxclass.py:203-213 | An export that raises has written a row for every entry before the first one that raises, the run's error is that entry's error, and that entry and the ones after it are left as fetched |
| Export.WriteHierarchy | qradarzoldaxclass.py:196-213 | The lines are the header, then the rows of the loop. The array holds the entries as the loop left them. It returns entries + 1, or the exception that stopped the loop. On an empty array it writes the header alone and returns 1 |
| Export.ExportTurn | qradarzoldaxclass.py:203-211 | One turn either raises and leaves the array and rows alone, or rewrites entry i, appends its row and resumes the run after it |
| Export.RowsFollowEntries | qradarzoldaxclass.py:203-211 | Row i and updated entry i are what the turn on entry i produces |
| Export.ExportCompletesIff | qradarzoldaxclass.py:203-213 | Export completes exactly when no entry raises |
| Export.EmptyFetchWritesHeader | qradarzoldaxclass.py:196-213 | An empty fetch, or an answer that is not a list, gives no entries and no rows; with WriteHierarchy, whose own contract states that an empty array writes the header alone and returns 1 |
| Importer.NameField | qradarzoldaxclass.py:254-261 | A name is kept exactly when the raw cell is valid; what is kept is the cell without its final newline, and is valid |
| Importer.CidrField | qradarzoldaxclass.py:263-268 | A CIDR block is kept exactly when the raw cell is valid, and is kept unchanged |
| Importer.GroupField | qradarzoldaxclass.py:270-277 | A group is kept exactly when the raw cell is valid; what is kept is the cell without its final newline, and is valid |
| Importer.LocationField | qradarzoldaxclass.py:279-286 | A location is kept exactly when the stripped cell is valid (so "" and "N/A" are never kept), and what is kept is `format_location` of the stripped cell: an in-range point of floats |
| Importer.CountryField | qradarzoldaxclass.py:288-294 | A country code is kept exactly when the stripped cell is two upper-case letters, and it is kept stripped |
| Importer.BuildNetwork | qradarzoldaxclass.py:248-296 | A row builds exactly when it has all eight cells and both ids parse as `int()`; the ids and description come from their cells, and each optional field is its validator's result on its own cell (cells past the eighth are ignored) |
| Importer.RowErrorOrder | qradarzoldaxclass.py:248-304 | A failing row reports the first failing step in source order: the id, then the domain id, then a missing location or country code |
| Importer.BuiltNetworkIsCanonical | qradarzoldaxclass.py:248-296 | Every network built holds only values the import itself accepts |
| Importer.NonBlank | qradarzoldaxclass.py:246 | The rows the reader yields are exactly the rows with at least one field, each as often as it occurs |
| Importer.NonBlankAppend | qradarzoldaxclass.py:246 | The reader keeps the rows in their order: skipping the blank rows of two runs one after the other skips them from each in turn |
| Importer.CollectAllOrNothing | qradarzoldaxclass.py:246-307 | The batch builds exactly when every non-blank row builds |
| Importer.CollectFollowsRows | qradarzoldaxclass.py:246-296 | A built batch has one network per non-blank row, in file order, each built from its row |
| Importer.CollectFailsAtFirstBadRow | qradarzoldaxclass.py:298-307 | A failed batch reports the error of the first non-blank row that fails; every row before it builds |
| Importer.CollectAllBuilt | qradarzoldaxclass.py:246-296 | Non-blank rows that each build into their network give exactly those networks |
| Importer.BatchIsCanonical | qradarzoldaxclass.py:246-296 | Every network of a built batch holds only values the import accepts |
| Importer.BuildBatch | qradarzoldaxclass.py:246-307 | The row loop gives the batch of the rows, stopping at the first row that fails |
| Importer.ImportCsv | qradarzoldaxclass.py:221-315 | The corrected import, step by step, gives the run the import defines |
| Importer.ImportOutcomes | qradarzoldaxclass.py:221-315 | The corrected import never raises. It backs up exactly when the switch is on. It sends a batch exactly when the backup (if any) succeeded, the header matches and every non-blank row builds. It reports a count exactly when, in addition, the PUT answer is truthy |
| Importer.HeaderGuard | qradarzoldaxclass.py:240-244 | A wrong header, or an unreadable file, fails the import without sending anything |
| Importer.NoPutWithoutBackup | qradarzoldaxclass.py:223-231 | With the switch on, a batch is sent only after a backup that succeeded |
| Importer.SafetyOffProceeds | qradarzoldaxclass.py:225-227 | With the switch off, the import skips the backup and otherwise does exactly what it does after a successful backup |
| Importer.RowAbort | qradarzoldaxclass.py:298-307 | One non-blank row that fails aborts the whole import with nothing sent |
| Importer.CountOnSuccess | qradarzoldaxclass.py:309-311 | A successful import returns the number of networks sent: one per non-blank data row, in order, each canonical |
| Importer.BatchImported | qradarzoldaxclass.py:309-315 | A matching file whose rows build, answered truthy after a good backup, sends exactly its batch and returns its size |
| Importer.AsWrittenIgnoresBackup | qradarzoldaxclass.py:223-231 | As written, a failed backup imports exactly as a successful one |
| Importer.FailedBackupStillImports | qradarzoldaxclass.py:223-231 | As written, a failed backup with the switch on still sends a batch; the corrected import sends nothing |
| Importer.AsWrittenRaisesWhenSafetyOff | qradarzoldaxclass.py:225-231 | As written, every import with the switch off raises; the corrected import never does |
| Importer.SafetySpellings | qradarzoldaxclass.py:223 | The switch is off for "off" in any letter case and when the key is missing, and on for any other value, "" and "off " included |
| RoundTrip.SentinelIsNoValue | qradarzoldaxclass.py:205 | The "N/A" export writes for a missing field is not a valid name, group, CIDR block or location |
| RoundTrip.LocationOfNetwork | qradarzoldaxclass.py:204-207 | The location cell of an imported network is its point's text, or "N/A" |
| RoundTrip.WrittenColumn | qradarzoldaxclass.py:210 | Every column but the location holds the network's own field as text, or "N/A" |
| RoundTrip.ExportWritesNetworkRow | qradarzoldaxclass.py:203-211 | The export of the dict the import sends does not raise, and writes exactly the network's row |
| RoundTrip.NameRowImports | qradarzoldaxclass.py:254-261 | The name cell export writes imports as the same optional name |
| RoundTrip.CidrRowImports | qradarzoldaxclass.py:263-268 | The CIDR cell export writes imports as the same optional block |
| RoundTrip.GroupRowImports | qradarzoldaxclass.py:270-277 | The group cell export writes imports as the same optional group |
| RoundTrip.LocationRowImports | qradarzoldaxclass.py:279-286 | The location cell export writes imports as the same optional point, when `repr` writes its coordinates without an exponent |
| RoundTrip.CountryRowImports | qradarzoldaxclass.py:288-294 | The country cell export writes imports as the same optional code |
| RoundTrip.NetworkRowImports | qradarzoldaxclass.py:248-296 | The import reads the row of a canonical network back as that network, when `repr` writes its coordinates without an exponent |
| RoundTrip.ExportStored | qradarzoldaxclass.py:203-213 | Export of the stored networks does not raise, and writes their rows in order |
| RoundTrip.ImportRows | qradarzoldaxclass.py:246-296 | The import of the rows of canonical networks whose coordinates `repr` writes without an exponent builds exactly those networks |
| RoundTrip.ExportThenImport | qradarzoldaxclass.py:196-315 | Export, then import of the file it wrote, with a good backup and a truthy answer, sends back exactly the networks held and returns their number, when `repr` writes every coordinate without an exponent |
| RoundTrip.ImportIsStable | qradarzoldaxclass.py:246-296 | What an import built comes back unchanged from a second import of its exported rows, when no coordinate of it is one `repr` writes with an exponent |
| Domains.CheckDomain | qradarzoldaxclass.py:327-345 | The loop prints the listing of the domains the GET answered, stopping at the first one that raises; it prints nothing for a non-list |
| Domains.ListingFollowsDomains | qradarzoldaxclass.py:338-345 | One line per domain, in order, each the line of that domain. The listing stops exactly at the first entry that is not a dict, with AttributeError. When every entry is a dict, all are listed |
| Domains.DefaultDomainNamed | qradarzoldaxclass.py:339-341 | A domain whose id equals 0 is listed as DEFAULT_DOMAIN, whatever its name |
| Domains.ViewNeverBlank | qradarzoldaxclass.py:338-344 | The name and description shown are always truthy. Each is "N/A" exactly when the field is missing, falsy or "N/A" itself (for the name, on domains other than the default) |

## Left out

- Decimals.ParseInt: Python's `int()` and `str()` refuse integers of more than 4300 decimal digits (the default of `sys.set_int_max_str_digits`) with ValueError; the model has no such bound, so an id or domain_id of more digits builds a network here where the program's import returns False, and `ParseIntText` holds here for integers the program cannot write.
- HTTP transport, headers, TLS, the configuration file and its errors,
  logging, the CLI and `print_version` are not part of this model. The
  answers of `make_request` are parameters. A PUT that raises instead of
  answering `{}` is not modelled.
- The backup (`backup_current_hierarchy`) is its boolean result. Its file
  name, clock and export to disk are not modelled.
- The CSV file is a list of rows. Quoting, the UTF-8 encoding and `csv.Error`
  on malformed input are folded into `Unreadable`. Extra fields in a row
  are ignored, as DictReader does.
- Decimals.ToFloat: it covers only the plain numerals the location pattern
  admits. Rounding to 53 bits and exponent notation in `repr` (more than
  about 16 significant digits, or very large or small values) are not
  modelled, so `float()` keeps the exact value.
- Validators.LocationFormatSpec: the range test compares exact values, while
  Python compares floats. A latitude such as `90.00000000000000001` rounds
  to 90.0 and is accepted by the program, but is refused by the model.
- Locations.ExportedPointReimports, Locations.ImportedLocationReexports,
  RoundTrip.LocationRowImports, RoundTrip.ExportThenImport and
  RoundTrip.ImportIsStable hold only for coordinates that are zero or at
  least 1e-4 in magnitude (`PositionalRepr`). `repr` writes a smaller
  non-zero coordinate in exponent form (`5e-05`), which the location
  pattern refuses. Such a location is dropped on re-import, as
  Locations.SmallCoordinateNotReexported shows. The model does not write
  exponent form itself.
- PyText.IsDigits: `\d` is ASCII digits only. This is exact for CIDR blocks,
  which `ipaddress` rejects otherwise. For locations and `int()`, non-ASCII
  Unicode digits are not modelled.
- Json.Str: `repr` of strings inside lists and dicts does not escape quotes
  or control characters.
- IPv6 and netmask forms of `ip_network` are not modelled. The pattern
  admits only dotted IPv4 with a prefix length.
- The safety value is a string. A non-string value, on which `.lower()`
  raises, is not modelled.
- The import checks the backup before it checks the header, so a file with
  the wrong header is refused only after the backup ran.
- A missing `safety` key turns the switch off.
- Only a missing key is written as "N/A"; a JSON null is written as an empty
  cell. The location column is the exception: a null or any other non-dict
  location raises AttributeError and stops the export.
- Json.Get: a dict is a list of members with distinct keys, and `.get`
  returns the first member with the key. `json.loads` keeps the last of
  duplicate keys; answers with duplicate keys are not modelled.

## Findings

| source | as written | input that shows it | evidently intended | confidence | as-written member | corrected member |
|---|---|---|---|---|---|---|
| qradarzoldaxclass.py:223-231 | the test `if not backup_success` sits inside the `else` branch for safety off, where `backup_success` was never assigned | `safety` set to "off", or the key missing: every import raises UnboundLocalError | skip the backup and go on with the import | high; not executed | Importer.AsWrittenRaisesWhenSafetyOff | Importer.SafetyOffProceeds |
| qradarzoldaxclass.py:223-231 | with the switch on, the result of the backup is assigned and never read | `safety` "on", the backup fails, and the file holds only the header: the empty batch is PUT and 0 returned | abort the import, with nothing sent, when the backup fails | high; not executed | Importer.FailedBackupStillImports | Importer.NoPutWithoutBackup |
