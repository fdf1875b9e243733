/** The location transcoder: format_location turns the tabular `lat,lon`
    text into the remote point with longitude first, and export writes a
    point back as `lat,lon`. */
module Locations {
  import opened Wrappers
  import opened PyText
  import opened Decimals
  import opened Json
  import opened Validators

  /** A location as the remote API holds it: a point whose coordinates are
      longitude first, then latitude. */
  datatype Point = Point(lon: Decimal, lat: Decimal)

  /** {"type": "Point", "coordinates": [lon, lat]} */
  function PointJson(p: Point): Json {
    JObject([Member("type", JStr("Point")), Member("coordinates", JList([JNum(p.lon), JNum(p.lat)]))])
  }

  /** The text export writes for a point: str() of the second coordinate
      (the latitude), a comma, str() of the first (the longitude). */
  function LocationText(p: Point): string {
    Text(p.lat) + "," + Text(p.lon)
  }

  /** format_location on a string valid_location_format accepted: split at
      the comma, float() of each half, the two swapped into remote order.
      The point holds the numbers the pattern matched, in range. */
  function FormatLocation(loc: string): (p: Point)
    requires ValidLocationFormat(loc)
    ensures p.lat == ToFloat(MatchLocation(loc).value.0)
    ensures p.lon == ToFloat(MatchLocation(loc).value.1)
    ensures Value(p.lat) == Value(MatchLocation(loc).value.0)
    ensures Value(p.lon) == Value(MatchLocation(loc).value.1)
    ensures InRange(p.lat, p.lon)
  {
    var parts := Split(loc, ',');
    LocationPieces(loc);
    var lat := Parse(Strip(parts[0])).value;
    var lon := Parse(Strip(parts[1])).value;
    Point(ToFloat(lon), ToFloat(lat))
  }

  /** On a matched location, str.split(',') gives the two numerals, each
      read by float() once its surrounding whitespace is gone. */
  lemma LocationPieces(loc: string)
    requires MatchLocation(loc).Some?
    ensures |Split(loc, ',')| == 2
    ensures Parse(Strip(Split(loc, ',')[0])) == Some(MatchLocation(loc).value.0)
    ensures Parse(Strip(Split(loc, ',')[1])) == Some(MatchLocation(loc).value.1)
  {
    var (lat, lon) := MatchLocation(loc).value;
    var ws := MatchHasShape(loc, lat, lon);
    var nl := FinalNewline(loc);
    NumeralPieces(loc, lat, lon, ws, nl);
  }

  /** The newline `$` lets through at the end, if any. */
  lemma FinalNewline(s: string) returns (nl: string)
    ensures s == DollarBody(s) + nl && (nl == "" || nl == "\n")
  {
    nl := if DollarBody(s) == s then "" else "\n";
  }

  lemma NumeralPieces(loc: string, lat: Decimal, lon: Decimal, ws: string, nl: string)
    requires LocationShape(loc, lat, lon, ws)
    requires loc == DollarBody(loc) + nl && (nl == "" || nl == "\n")
    ensures |Split(loc, ',')| == 2
    ensures Parse(Strip(Split(loc, ',')[0])) == Some(lat)
    ensures Parse(Strip(Split(loc, ',')[1])) == Some(lon)
  {
    PiecesOfShape(loc, lat, lon, ws, nl);
    LatitudePieceParses(lat);
    LongitudePieceParses(ws, lon, nl);
  }

  lemma PiecesOfShape(loc: string, lat: Decimal, lon: Decimal, ws: string, nl: string)
    requires LocationShape(loc, lat, lon, ws)
    requires loc == DollarBody(loc) + nl && (nl == "" || nl == "\n")
    ensures Split(loc, ',') == [Text(lat), ws + Text(lon) + nl]
  {
    var a, c := Text(lat), Text(lon);
    Regroup(loc, DollarBody(loc), a, ws, c, nl);
    NumeralChars(lat);
    NumeralChars(lon);
    CommaFreeTail(ws, c, nl);
    SplitTwo(loc, a, ws + c + nl);
  }

  lemma LatitudePieceParses(lat: Decimal)
    requires WellFormed(lat)
    ensures Parse(Strip(Text(lat))) == Some(lat)
  {
    NumeralChars(lat);
    StripTrimmed(Text(lat));
    ParseText(lat);
  }

  lemma LongitudePieceParses(ws: string, lon: Decimal, nl: string)
    requires WellFormed(lon) && AllSpace(ws) && (nl == "" || nl == "\n")
    ensures Parse(Strip(ws + Text(lon) + nl)) == Some(lon)
  {
    NumeralChars(lon);
    assert AllSpace(nl) by {
      if nl != "" { assert IsSpace(nl[0]); }
    }
    StripPadded(ws, Text(lon), nl);
    ParseText(lon);
  }

  lemma Regroup(s: string, body: string, a: string, ws: string, c: string, nl: string)
    requires body == a + "," + ws + c && s == body + nl
    ensures s == a + "," + (ws + c + nl)
  {
  }

  lemma CommaFreeTail(ws: string, c: string, nl: string)
    requires AllSpace(ws) && ',' !in c && (nl == "" || nl == "\n")
    ensures ',' !in ws + c + nl
  {
    var t := ws + c + nl;
    forall i | 0 <= i < |t| ensures t[i] != ',' {
      if i < |ws| {
        assert t[i] == ws[i];
      } else if i < |ws| + |c| {
        assert t[i] == c[i - |ws|];
      }
    }
  }

  /** A string made of two comma-free pieces around one comma splits into them. */
  lemma SplitTwo(s: string, a: string, b: string)
    requires s == a + "," + b && ',' !in a && ',' !in b
    ensures Split(s, ',') == [a, b]
  {
    JoinTwo([a, b], ',');
    SplitJoin([a, b], ',');
  }

  /** Export then import: the text export writes for a point whose
      coordinates are Python floats in range, each written by repr() without
      an exponent, is left alone by strip(), is accepted by
      valid_location_format, and format_location gives the same point back. */
  lemma ExportedPointReimports(p: Point)
    requires IsFloatRepr(p.lat) && IsFloatRepr(p.lon) && InRange(p.lat, p.lon)
    requires PositionalRepr(p.lat) && PositionalRepr(p.lon)
    ensures Strip(LocationText(p)) == LocationText(p)
    ensures ValidLocationFormat(LocationText(p))
    ensures FormatLocation(LocationText(p)) == p
  {
    var s := LocationText(p);
    PointTextShape(p);
    StripTrimmed(s);
    ShapeMatches(s, p.lat, p.lon, "");
    FloatReprStable(p.lat);
    FloatReprStable(p.lon);
  }

  lemma PointTextShape(p: Point)
    requires WellFormed(p.lat) && WellFormed(p.lon)
    ensures Trimmed(LocationText(p))
    ensures LocationShape(LocationText(p), p.lat, p.lon, "")
  {
    var s := LocationText(p);
    var a, c := Text(p.lat), Text(p.lon);
    NumeralChars(p.lat);
    NumeralChars(p.lon);
    TrimmedAroundComma(a, c);
    TrimmedBody(s);
    NothingBetween(a + ",", c);
  }

  lemma NothingBetween(x: string, y: string)
    ensures x + "" + y == x + y
  {
    assert x + "" == x;
  }

  /** Two non-empty trimmed pieces around a comma make a trimmed string. */
  lemma TrimmedAroundComma(a: string, c: string)
    requires a != [] && c != [] && Trimmed(a) && Trimmed(c)
    ensures Trimmed(a + "," + c)
  {
    var s := a + "," + c;
    assert s[|s| - 1] == c[|c| - 1];
    assert s[0] == a[0];
  }

  /** Import then export then import: the point format_location makes, when
      repr() writes both its coordinates without an exponent, is written by
      export as a location that imports as the very same point. */
  lemma ImportedLocationReexports(loc: string)
    requires ValidLocationFormat(loc)
    requires PositionalRepr(FormatLocation(loc).lat) && PositionalRepr(FormatLocation(loc).lon)
    ensures ValidLocationFormat(LocationText(FormatLocation(loc)))
    ensures FormatLocation(LocationText(FormatLocation(loc))) == FormatLocation(loc)
  {
    ExportedPointReimports(FormatLocation(loc));
  }

  /** Where the round trip ends: "0.00005,1" is a valid location whose
      latitude, 5e-05, repr() writes with an exponent, and the text
      "5e-05,1.0" that export then writes is refused by the validator. */
  lemma SmallCoordinateNotReexported()
    ensures ValidLocationFormat("0.00005,1")
    ensures !PositionalRepr(FormatLocation("0.00005,1").lat)
    ensures !ValidLocationFormat("5e-05,1.0")
  {
    SmallLocationValid();
    ExponentFormRefused();
  }

  lemma SmallLocationValid()
    ensures ValidLocationFormat("0.00005,1")
    ensures Value(MatchLocation("0.00005,1").value.0) == 0.00005
  {
    var lat := Decimal(false, "0", "00005");
    var lon := Decimal(false, "1", "");
    assert Text(lat) == "0.00005" && Text(lon) == "1";
    FiveAfterZeros();
    assert DigitsValue("0") == 0 && DigitsValue("1") == 1;
    assert Pow10(5) == 100000;
    assert Value(lat) == 0.00005 && Value(lon) == 1.0;
    assert DollarBody("0.00005,1") == "0.00005,1";
    NothingBetween("0.00005,", "1");
    ShapeMatches("0.00005,1", lat, lon, "");
  }

  lemma FiveAfterZeros()
    ensures DigitsValue("00005") == 5
  {
    assert "5"[..0] == [];
    LeadingZero("5");
    assert "0" + "5" == "05";
    LeadingZero("05");
    assert "0" + "05" == "005";
    LeadingZero("005");
    assert "0" + "005" == "0005";
    LeadingZero("0005");
    assert "0" + "0005" == "00005";
  }

  lemma ExponentFormRefused()
    ensures !ValidLocationFormat("5e-05,1.0")
  {
    ExponentPieces();
    ExponentIsNoNumeral();
  }

  lemma ExponentPieces()
    ensures Split(DollarBody("5e-05,1.0"), ',') == ["5e-05", "1.0"]
  {
    assert DollarBody("5e-05,1.0") == "5e-05,1.0";
    SplitAt("5e-05,1.0", ',', "5e-05", "1.0");
    assert Split("1.0", ',') == ["1.0"];
  }

  lemma ExponentIsNoNumeral()
    ensures Parse("5e-05") == None
  {
    assert !IsDigit("5e-05"[1]);
    assert "5e-05"[1..] == "e-05";
    assert ParseUnsigned("5e-05") == None;
  }
}
