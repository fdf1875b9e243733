/** The field validators of QRadarNetworkHierarchy: total predicates over
    strings, each the regular expression (and, for CIDR blocks, the
    ipaddress parser) the source applies with re.match. */
module Validators {
  import opened Wrappers
  import opened PyText
  import opened Decimals

  // ----- Group and network names -----

  /** [A-Za-z0-9\.\-_] */
  predicate IsGroupChar(c: char) {
    IsUpper(c) || IsLower(c) || IsDigit(c) || c == '.' || c == '-' || c == '_'
  }

  /** [A-Za-z0-9\-_] */
  predicate IsNameChar(c: char) {
    IsUpper(c) || IsLower(c) || IsDigit(c) || c == '-' || c == '_'
  }

  /** valid_group_format: `^[A-Za-z0-9\.\-_]+$` */
  predicate ValidGroupFormat(group: string) {
    var body := DollarBody(group);
    |body| > 0 && forall i :: 0 <= i < |body| ==> IsGroupChar(body[i])
  }

  /** valid_network_name_format: `^[A-Za-z0-9\-_]+$` */
  predicate ValidNetworkNameFormat(name: string) {
    var body := DollarBody(name);
    |body| > 0 && forall i :: 0 <= i < |body| ==> IsNameChar(body[i])
  }

  /** valid_country_code_format: `^[A-Z]{2}$` */
  predicate ValidCountryCodeFormat(code: string) {
    var body := DollarBody(code);
    |body| == 2 && IsUpper(body[0]) && IsUpper(body[1])
  }

  /** The character set of names is that of groups without '.', so the
      valid network names are exactly the valid groups without a '.'. */
  lemma NameIsGroup(s: string)
    ensures ValidNetworkNameFormat(s) ==> ValidGroupFormat(s)
    ensures ValidGroupFormat(s) && '.' !in s ==> ValidNetworkNameFormat(s)
    ensures ValidNetworkNameFormat(s) <==> ValidGroupFormat(s) && '.' !in s
  {
    var body := DollarBody(s);
    if ValidNetworkNameFormat(s) {
      forall i | 0 <= i < |s| ensures s[i] != '.' {
        if i < |body| {
          assert IsNameChar(body[i]) && body[i] == s[i];
        } else {
          assert s == body + "\n" && s[i] == '\n';
        }
      }
    }
    if ValidGroupFormat(s) && '.' !in s {
      forall i | 0 <= i < |body| ensures IsNameChar(body[i]) {
        assert body[i] == s[i];
      }
    }
  }

  /** A group is valid exactly when it is one or more characters of the
      set, optionally followed by one newline; any other character anywhere
      makes it invalid. */
  lemma GroupFormatSpec(s: string)
    ensures ValidGroupFormat(s) <==>
      || (|s| > 0 && forall i :: 0 <= i < |s| ==> IsGroupChar(s[i]))
      || (|s| > 1 && s[|s| - 1] == '\n' && forall i :: 0 <= i < |s| - 1 ==> IsGroupChar(s[i]))
  {
    if |s| > 0 && s[|s| - 1] == '\n' {
      assert !IsGroupChar(s[|s| - 1]);
    }
  }

  /** What import stores for a valid name or group, the raw value stripped,
      is the value without its trailing newline and is still valid. */
  lemma StrippedNameStaysValid(raw: string)
    requires ValidNetworkNameFormat(raw) || ValidGroupFormat(raw)
    ensures Strip(raw) == DollarBody(raw)
    ensures ValidNetworkNameFormat(raw) ==> ValidNetworkNameFormat(Strip(raw))
    ensures ValidGroupFormat(raw) ==> ValidGroupFormat(Strip(raw))
  {
    NameIsGroup(raw);
    StripGroupBody(raw);
    GroupBodyHasNoNewline(raw);
  }

  /** The group a valid raw value stands for is not empty and does not end
      in a newline, so taking its body again changes nothing. */
  lemma GroupBodyHasNoNewline(raw: string)
    requires ValidGroupFormat(raw)
    ensures |DollarBody(raw)| > 0 && DollarBody(raw)[|DollarBody(raw)| - 1] != '\n'
    ensures DollarBody(DollarBody(raw)) == DollarBody(raw)
  {
    var body := DollarBody(raw);
    assert IsGroupChar(body[|body| - 1]);
  }

  lemma StripGroupBody(raw: string)
    requires ValidGroupFormat(raw)
    ensures Strip(raw) == DollarBody(raw)
  {
    var body := DollarBody(raw);
    assert IsGroupChar(body[0]) && IsGroupChar(body[|body| - 1]);
    assert Trimmed(body);
    if body == raw {
      StripPadded("", raw, "");
      assert "" + raw + "" == raw;
    } else {
      StripPadded("", body, "\n");
      assert "" + body + "\n" == raw;
    }
  }

  /** For the stripped values import validates, the country code check is
      exactly "two upper-case ASCII letters". */
  lemma CountryCodeSpec(code: string)
    requires Trimmed(code)
    ensures ValidCountryCodeFormat(code) <==> |code| == 2 && IsUpper(code[0]) && IsUpper(code[1])
  {
  }

  // ----- Locations -----

  /** The groups of `^(-?\d+(\.\d+)?),\s*(-?\d+(\.\d+)?)$`: the latitude
      and longitude numerals, or None when the pattern does not match. */
  function MatchLocation(loc: string): Option<(Decimal, Decimal)> {
    var parts := Split(DollarBody(loc), ',');
    if |parts| != 2 then None
    else
      match (Parse(parts[0]), Parse(StripLeft(parts[1])))
      case (Some(lat), Some(lon)) => Some((lat, lon))
      case _ => None
  }

  predicate InRange(lat: Decimal, lon: Decimal) {
    -90.0 <= Value(lat) <= 90.0 && -180.0 <= Value(lon) <= 180.0
  }

  /** valid_location_format: the pattern matches, and -90 <= lat <= 90 and
      -180 <= lon <= 180. */
  predicate ValidLocationFormat(loc: string) {
    match MatchLocation(loc)
    case None => false
    case Some((lat, lon)) => InRange(lat, lon)
  }

  /** `loc` is latitude, a comma, whitespace and longitude, with perhaps one
      newline after it: the strings the location pattern matches. */
  predicate LocationShape(loc: string, lat: Decimal, lon: Decimal, ws: string) {
    && WellFormed(lat) && WellFormed(lon) && AllSpace(ws)
    && DollarBody(loc) == Text(lat) + "," + ws + Text(lon)
  }

  /** A numeral contains no comma or whitespace and starts and ends with a
      character that is not whitespace. */
  lemma NumeralChars(d: Decimal)
    requires WellFormed(d)
    ensures ',' !in Text(d)
    ensures Trimmed(Text(d)) && Text(d) != []
  {
    var t := Text(d);
    var sign := if d.negative then "-" else "";
    var rest := if d.fraction == [] then "" else "." + d.fraction;
    assert t == sign + d.whole + rest;
    assert forall i :: 0 <= i < |t| ==> t[i] == '-' || t[i] == '.' || IsDigit(t[i]) by {
      forall i | 0 <= i < |t| ensures t[i] == '-' || t[i] == '.' || IsDigit(t[i]) {
        if i < |sign| {
        } else if i < |sign| + |d.whole| {
          assert t[i] == d.whole[i - |sign|];
        } else if i > |sign| + |d.whole| {
          assert t[i] == d.fraction[i - |sign| - |d.whole| - 1];
        }
      }
    }
  }

  /** The location pattern matches exactly the strings of LocationShape, and
      reads their latitude and longitude. */
  lemma MatchLocationShape(loc: string, lat: Decimal, lon: Decimal)
    ensures MatchLocation(loc) == Some((lat, lon)) <==> exists ws :: LocationShape(loc, lat, lon, ws)
  {
    if MatchLocation(loc) == Some((lat, lon)) {
      var ws := MatchHasShape(loc, lat, lon);
    }
    if ws :| LocationShape(loc, lat, lon, ws) {
      ShapeMatches(loc, lat, lon, ws);
    }
  }

  lemma MatchHasShape(loc: string, lat: Decimal, lon: Decimal) returns (ws: string)
    requires MatchLocation(loc) == Some((lat, lon))
    ensures LocationShape(loc, lat, lon, ws)
  {
    var parts := MatchedParts(loc, lat, lon);
    ws := LeadingSpace(parts[1]);
    CommaJoin(DollarBody(loc), parts, Text(lat), ws, Text(lon));
  }

  /** The two pieces around the comma the pattern matched, and their numerals. */
  lemma MatchedParts(loc: string, lat: Decimal, lon: Decimal) returns (parts: seq<string>)
    requires MatchLocation(loc) == Some((lat, lon))
    ensures parts == Split(DollarBody(loc), ',') && |parts| == 2
    ensures Text(lat) == parts[0] && Text(lon) == StripLeft(parts[1])
    ensures WellFormed(lat) && WellFormed(lon)
  {
    parts := Split(DollarBody(loc), ',');
  }

  /** The whitespace lstrip() removes from `p`. */
  lemma LeadingSpace(p: string) returns (ws: string)
    ensures AllSpace(ws) && p == ws + StripLeft(p)
  {
    var l := StripLeft(p);
    ws := p[..|p| - |l|];
    assert p == ws + l;
  }

  lemma CommaJoin(body: string, parts: seq<string>, a: string, ws: string, c: string)
    requires |parts| == 2 && Join(parts, ',') == body
    requires parts[0] == a && parts[1] == ws + c
    ensures body == a + "," + ws + c
  {
    assert parts[1..] == [parts[1]];
  }

  lemma ShapeMatches(loc: string, lat: Decimal, lon: Decimal, ws: string)
    requires LocationShape(loc, lat, lon, ws)
    ensures MatchLocation(loc) == Some((lat, lon))
  {
    NumeralChars(lat);
    NumeralChars(lon);
    var a, c := Text(lat), Text(lon);
    var parts := [a, ws + c];
    assert ',' !in ws + c by {
      assert forall i :: 0 <= i < |ws| ==> (ws + c)[i] == ws[i];
      assert forall i :: |ws| <= i < |ws + c| ==> (ws + c)[i] == c[i - |ws|];
    }
    SplitJoin(parts, ',');
    CommaJoin(Join(parts, ','), parts, a, ws, c);
    StripLeftPadded(ws, c);
    ParseText(lat);
    ParseText(lon);
    MatchOfParts(loc, parts, lat, lon);
  }

  lemma MatchOfParts(loc: string, parts: seq<string>, lat: Decimal, lon: Decimal)
    requires Split(DollarBody(loc), ',') == parts && |parts| == 2
    requires Parse(parts[0]) == Some(lat) && Parse(StripLeft(parts[1])) == Some(lon)
    ensures MatchLocation(loc) == Some((lat, lon))
  {
  }

  /** valid_location_format holds exactly of `lat,\s*lon` (a trailing
      newline allowed) with latitude in [-90, 90] and longitude in
      [-180, 180]. */
  lemma LocationFormatSpec(loc: string)
    ensures ValidLocationFormat(loc) <==>
      exists lat, lon, ws :: LocationShape(loc, lat, lon, ws) && InRange(lat, lon)
  {
    if ValidLocationFormat(loc) {
      var (lat, lon) := MatchLocation(loc).value;
      MatchLocationShape(loc, lat, lon);
    }
    if lat, lon, ws :| LocationShape(loc, lat, lon, ws) && InRange(lat, lon) {
      ShapeMatches(loc, lat, lon, ws);
    }
  }

  // ----- CIDR blocks -----

  /** `^(\d{1,3}\.\d{1,3}\.\d{1,3}\.\d{1,3})/(\d{1,2})$` */
  predicate CidrPatternMatches(cidr: string) {
    var halves := Split(DollarBody(cidr), '/');
    && |halves| == 2
    && var octets := Split(halves[0], '.');
    && |octets| == 4
    && (forall i :: 0 <= i < 4 ==> IsDigits(octets[i]) && |octets[i]| <= 3)
    && IsDigits(halves[1]) && |halves[1]| <= 2
  }

  /** An octet the ipaddress module accepts: ASCII digits, at most three,
      no leading zero, at most 255. */
  predicate ValidOctet(octet: string) {
    IsDigits(octet) && |octet| <= 3 && (octet == "0" || octet[0] != '0') && DigitsValue(octet) <= 255
  }

  /** A prefix length the ipaddress module accepts: ASCII digits, at most 32. */
  predicate ValidPrefixLength(prefix: string) {
    IsDigits(prefix) && DigitsValue(prefix) <= 32
  }

  function Pow2(n: nat): Positive {
    if n == 0 then 1 else 2 * Pow2(n - 1)
  }

  /** The 32-bit address the four octets spell. */
  function Address(octets: seq<string>): nat
    requires |octets| == 4
  {
    ((DigitsValue(octets[0]) * 256 + DigitsValue(octets[1])) * 256 + DigitsValue(octets[2])) * 256
      + DigitsValue(octets[3])
  }

  /** Strict mode: no address bit below the prefix is set. */
  predicate HostBitsClear(octets: seq<string>, prefix: nat)
    requires |octets| == 4 && prefix <= 32
  {
    Address(octets) % Pow2(32 - prefix) == 0
  }

  /** ipaddress.ip_network(cidr) (strict) accepting `cidr` as an IPv4
      network written `address/prefix`; the pattern has already excluded
      the other forms the parser knows (IPv6, netmask prefixes). */
  predicate IpNetworkAccepts(cidr: string) {
    var halves := Split(cidr, '/');
    && |halves| == 2
    && var octets := Split(halves[0], '.');
    && |octets| == 4
    && (forall i :: 0 <= i < 4 ==> ValidOctet(octets[i]))
    && ValidPrefixLength(halves[1])
    && HostBitsClear(octets, DigitsValue(halves[1]))
  }

  /** valid_cidr_format: the pattern matches and ip_network does not raise. */
  predicate ValidCidrFormat(cidr: string) {
    CidrPatternMatches(cidr) && IpNetworkAccepts(cidr)
  }

  /** `cidr` is four octets of at most three digits, each at most 255 and
      without leading zero, a '/', and a prefix of one or two digits at most
      32, with no host bit set. */
  predicate CidrShape(cidr: string, octets: seq<string>, prefix: string) {
    && |octets| == 4
    && (forall i :: 0 <= i < 4 ==> ValidOctet(octets[i]))
    && IsDigits(prefix) && |prefix| <= 2 && DigitsValue(prefix) <= 32
    && HostBitsClear(octets, DigitsValue(prefix))
    && cidr == Join(octets, '.') + "/" + prefix
  }

  /** A join contains a character only if the separator or a part does. */
  lemma {:induction false} JoinAvoids(parts: seq<string>, sep: char, c: char)
    requires c != sep && forall i :: 0 <= i < |parts| ==> c !in parts[i]
    ensures c !in Join(parts, sep)
    decreases |parts|
  {
    if |parts| > 1 {
      JoinAvoids(parts[1..], sep, c);
      assert Join(parts, sep) == parts[0] + [sep] + Join(parts[1..], sep);
    }
  }

  lemma DigitsHaveNo(s: string, c: char)
    requires IsDigits(s) && !IsDigit(c)
    ensures c !in s
  {
  }

  /** valid_cidr_format accepts exactly the strings of CidrShape. */
  lemma CidrFormatSpec(cidr: string)
    ensures ValidCidrFormat(cidr) <==> exists octets, prefix :: CidrShape(cidr, octets, prefix)
  {
    if ValidCidrFormat(cidr) {
      var halves := Split(cidr, '/');
      assert cidr == halves[0] + "/" + halves[1] by {
        assert halves[1..] == [halves[1]];
      }
      assert DollarBody(cidr) == cidr by {
        assert cidr[|cidr| - 1] == halves[1][|halves[1]| - 1];
      }
      var octets := Split(halves[0], '.');
      assert CidrShape(cidr, octets, halves[1]);
    }
    if octets, prefix :| CidrShape(cidr, octets, prefix) {
      ShapeIsCidr(cidr, octets, prefix);
    }
  }

  lemma ShapeIsCidr(cidr: string, octets: seq<string>, prefix: string)
    requires CidrShape(cidr, octets, prefix)
    ensures ValidCidrFormat(cidr)
  {
    var address := Join(octets, '.');
    forall i | 0 <= i < 4 ensures '.' !in octets[i] && '/' !in octets[i] {
      DigitsHaveNo(octets[i], '.');
      DigitsHaveNo(octets[i], '/');
    }
    JoinAvoids(octets, '.', '/');
    DigitsHaveNo(prefix, '/');
    assert DollarBody(cidr) == cidr by {
      assert cidr[|cidr| - 1] == prefix[|prefix| - 1];
    }
    SplitJoin([address, prefix], '/');
    SplitJoin(octets, '.');
  }

  /** What import stores for a valid CIDR block, the raw value stripped, is
      the raw value itself. */
  lemma ValidCidrIsStripped(cidr: string)
    requires ValidCidrFormat(cidr)
    ensures Strip(cidr) == cidr
  {
    var octets, prefix := ShapeOfCidr(cidr);
    ShapeIsTrimmed(cidr, octets, prefix);
    StripTrimmed(cidr);
  }

  lemma ShapeOfCidr(cidr: string) returns (octets: seq<string>, prefix: string)
    requires ValidCidrFormat(cidr)
    ensures CidrShape(cidr, octets, prefix)
  {
    CidrFormatSpec(cidr);
    octets, prefix :| CidrShape(cidr, octets, prefix);
  }

  lemma ShapeIsTrimmed(cidr: string, octets: seq<string>, prefix: string)
    requires CidrShape(cidr, octets, prefix)
    ensures Trimmed(cidr)
  {
    var address := Join(octets, '.');
    assert address == octets[0] + ['.'] + Join(octets[1..], '.');
    assert cidr[0] == address[0] == octets[0][0];
    assert cidr[|cidr| - 1] == prefix[|prefix| - 1];
  }

  lemma TwoDigitsValue(s: string)
    requires |s| == 2
    ensures DigitsValue(s) == 10 * DigitValue(s[0]) + DigitValue(s[1])
  {
    assert DigitsValue(s) == 10 * DigitsValue(s[..1]) + DigitValue(s[1]);
    assert s[..1][..0] == [] && s[..1][0] == s[0];
  }

  /** 10.0.0.0/24 is accepted. */
  lemma CidrAcceptedExample()
    ensures ValidCidrFormat("10.0.0.0/24")
  {
    var octets := ["10", "0", "0", "0"];
    assert Join(octets, '.') == "10.0.0.0";
    TwoDigitsValue("10");
    TwoDigitsValue("24");
    assert DigitsValue("0") == 10 * DigitsValue([]) + DigitValue('0');
    assert Address(octets) == 167772160;
    assert Pow2(8) == 256;
    ShapeIsCidr("10.0.0.0/24", octets, "24");
  }

  /** A prefix longer than 32 bits is refused. */
  lemma CidrPrefixTooLongExample()
    ensures !ValidCidrFormat("10.0.0.0/33")
  {
    SplitJoin(["10.0.0.0", "33"], '/');
    assert Join(["10.0.0.0", "33"], '/') == "10.0.0.0/33";
    assert DigitsValue("33") == 33;
  }

  /** An octet above 255 passes the pattern, which counts only digits, and
      is refused by ip_network. */
  lemma CidrOctetTooLargeExample()
    ensures CidrPatternMatches("999.0.0.0/24")
    ensures !IpNetworkAccepts("999.0.0.0/24")
    ensures !ValidCidrFormat("999.0.0.0/24")
  {
    PatternOf999();
    OctetTooLarge();
  }

  lemma PatternOf999()
    ensures CidrPatternMatches("999.0.0.0/24")
  {
    assert DollarBody("999.0.0.0/24") == "999.0.0.0/24";
    DigitsOf999();
    var halves := HalvesOf999();
    var octets := OctetsOf999();
    PatternOfPieces("999.0.0.0/24", halves, octets);
  }

  /** The pattern matches once its pieces are known to be digit runs of the
      right lengths. */
  lemma PatternOfPieces(cidr: string, halves: seq<string>, octets: seq<string>)
    requires DollarBody(cidr) == cidr && halves == Split(cidr, '/') && |halves| == 2
    requires octets == Split(halves[0], '.') && |octets| == 4
    requires IsDigits(octets[0]) && IsDigits(octets[1]) && IsDigits(octets[2]) && IsDigits(octets[3])
    requires |octets[0]| <= 3 && |octets[1]| <= 3 && |octets[2]| <= 3 && |octets[3]| <= 3
    requires IsDigits(halves[1]) && |halves[1]| <= 2
    ensures CidrPatternMatches(cidr)
  {
    assert forall i :: 0 <= i < 4 ==> IsDigits(octets[i]) && |octets[i]| <= 3;
  }

  lemma DigitsOf999()
    ensures IsDigits("999") && IsDigits("0") && IsDigits("24")
  {
    assert IsDigit("999"[0]) && IsDigit("999"[1]) && IsDigit("999"[2]);
    assert IsDigit("24"[0]) && IsDigit("24"[1]);
  }

  lemma OctetTooLarge()
    ensures !IpNetworkAccepts("999.0.0.0/24")
  {
    var halves := HalvesOf999();
    var octets := OctetsOf999();
    OctetOver255();
    assert !ValidOctet(Split(halves[0], '.')[0]);
  }

  lemma HalvesOf999() returns (halves: seq<string>)
    ensures halves == Split("999.0.0.0/24", '/')
    ensures |halves| == 2 && halves[0] == "999.0.0.0" && halves[1] == "24"
  {
    SplitAt("999.0.0.0/24", '/', "999.0.0.0", "24");
    assert Split("24", '/') == ["24"];
    halves := Split("999.0.0.0/24", '/');
  }

  lemma OctetOver255()
    ensures !ValidOctet("999")
  {
    assert "999"[..2] == "99" && "99"[..1] == "9" && "9"[..0] == "";
    assert DigitsValue("999") == 999;
  }

  /** Four pieces free of the separator, joined by it, split back into them. */
  lemma SplitFour(a: string, b: string, c: string, d: string, sep: char)
    requires sep !in a && sep !in b && sep !in c && sep !in d
    ensures var parts := Split(a + ([sep] + (b + ([sep] + (c + ([sep] + d))))), sep);
      |parts| == 4 && parts[0] == a && parts[1] == b && parts[2] == c && parts[3] == d
  {
    var rest := SplitThree(b, c, d, sep);
    SplitAt(a + ([sep] + (b + ([sep] + (c + ([sep] + d))))), sep, a, b + ([sep] + (c + ([sep] + d))));
  }

  lemma SplitThree(b: string, c: string, d: string, sep: char) returns (parts: seq<string>)
    requires sep !in b && sep !in c && sep !in d
    ensures parts == Split(b + ([sep] + (c + ([sep] + d))), sep)
    ensures |parts| == 3 && parts[0] == b && parts[1] == c && parts[2] == d
  {
    var rest := SplitTwoPieces(c, d, sep);
    SplitAt(b + ([sep] + (c + ([sep] + d))), sep, b, c + ([sep] + d));
    parts := Split(b + ([sep] + (c + ([sep] + d))), sep);
  }

  lemma SplitTwoPieces(c: string, d: string, sep: char) returns (parts: seq<string>)
    requires sep !in c && sep !in d
    ensures parts == Split(c + ([sep] + d), sep)
    ensures |parts| == 2 && parts[0] == c && parts[1] == d
  {
    assert Split(d, sep) == [d];
    SplitAt(c + ([sep] + d), sep, c, d);
    parts := Split(c + ([sep] + d), sep);
  }

  lemma OctetsOf999() returns (octets: seq<string>)
    ensures octets == Split("999.0.0.0", '.')
    ensures |octets| == 4 && octets[0] == "999" && octets[1] == "0" && octets[2] == "0" && octets[3] == "0"
  {
    assert "999.0.0.0" == "999" + (['.'] + ("0" + (['.'] + ("0" + (['.'] + "0")))));
    SplitFour("999", "0", "0", "0", '.');
    octets := Split("999.0.0.0", '.');
  }
}
