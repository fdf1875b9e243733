/** The network segment as the import sends it and the export reads it
    back, and the fixed column order of the tabular file. */
module Hierarchy {
  import opened Wrappers
  import opened PyText
  import opened Decimals
  import opened Json
  import opened Validators
  import opened Locations

  /** The header of the file, in its fixed order. */
  const Columns: seq<string> := ["id", "group", "name", "cidr", "description", "domain_id", "location", "country_code"]

  /** One network as import builds it: id, description and domain id are
      always there; each validated field is absent when it was dropped. */
  datatype Network = Network(
    id: int,
    description: string,
    domainId: int,
    name: Option<string>,
    cidr: Option<string>,
    group: Option<string>,
    location: Option<Point>,
    countryCode: Option<string>)

  function OptionalMember(key: string, value: Option<Json>): seq<Member> {
    match value
    case None => []
    case Some(v) => [Member(key, v)]
  }

  function StrOption(s: Option<string>): Option<Json> {
    match s
    case None => None
    case Some(v) => Some(JStr(v))
  }

  function PointOption(p: Option<Point>): Option<Json> {
    match p
    case None => None
    case Some(v) => Some(PointJson(v))
  }

  /** The dict import sends for a network, keys in the order it sets them. */
  function NetworkJson(n: Network): Json {
    JObject(
      [Member("id", IntJson(n.id)), Member("description", JStr(n.description)), Member("domain_id", IntJson(n.domainId))]
      + OptionalMember("name", StrOption(n.name))
      + OptionalMember("cidr", StrOption(n.cidr))
      + OptionalMember("group", StrOption(n.group))
      + OptionalMember("location", PointOption(n.location))
      + OptionalMember("country_code", StrOption(n.countryCode)))
  }

  /** The value the dict import sends holds under each key: the three
      fields always present, each optional one when present, and nothing
      under any other key. */
  function NetworkField(n: Network, key: string): Option<Json> {
    if key == "id" then Some(IntJson(n.id))
    else if key == "description" then Some(JStr(n.description))
    else if key == "domain_id" then Some(IntJson(n.domainId))
    else if key == "name" then StrOption(n.name)
    else if key == "cidr" then StrOption(n.cidr)
    else if key == "group" then StrOption(n.group)
    else if key == "location" then PointOption(n.location)
    else if key == "country_code" then StrOption(n.countryCode)
    else None
  }

  /** dict.get on the dict import sends finds each key's own field: no key
      is set twice. */
  lemma NetworkGet(n: Network, key: string)
    ensures Get(NetworkJson(n).members, key) == NetworkField(n, key)
  {
    var base := [Member("id", IntJson(n.id)), Member("description", JStr(n.description)), Member("domain_id", IntJson(n.domainId))];
    var m1 := base + OptionalMember("name", StrOption(n.name));
    var m2 := m1 + OptionalMember("cidr", StrOption(n.cidr));
    var m3 := m2 + OptionalMember("group", StrOption(n.group));
    var m4 := m3 + OptionalMember("location", PointOption(n.location));
    GetAppend(m4, OptionalMember("country_code", StrOption(n.countryCode)), key);
    GetAppend(m3, OptionalMember("location", PointOption(n.location)), key);
    GetAppend(m2, OptionalMember("group", StrOption(n.group)), key);
    GetAppend(m1, OptionalMember("cidr", StrOption(n.cidr)), key);
    GetAppend(base, OptionalMember("name", StrOption(n.name)), key);
    GetBase(base, n, key);
    GetOptional("name", StrOption(n.name), key);
    GetOptional("cidr", StrOption(n.cidr), key);
    GetOptional("group", StrOption(n.group), key);
    GetOptional("location", PointOption(n.location), key);
    GetOptional("country_code", StrOption(n.countryCode), key);
  }

  lemma GetBase(base: seq<Member>, n: Network, key: string)
    requires base == [Member("id", IntJson(n.id)), Member("description", JStr(n.description)), Member("domain_id", IntJson(n.domainId))]
    ensures Get(base, key) ==
      if key == "id" then Some(IntJson(n.id))
      else if key == "description" then Some(JStr(n.description))
      else if key == "domain_id" then Some(IntJson(n.domainId))
      else None
  {
    assert base[1..] == [Member("description", JStr(n.description)), Member("domain_id", IntJson(n.domainId))];
    assert base[1..][1..] == [Member("domain_id", IntJson(n.domainId))];
    assert base[1..][1..][1..] == [];
    if key != "id" {
      assert Get(base, key) == Get(base[1..], key);
      if key != "description" {
        assert Get(base[1..], key) == Get(base[1..][1..], key);
        assert Get(base[1..][1..][1..], key) == None;
        if key != "domain_id" {
          assert Get(base[1..][1..], key) == Get(base[1..][1..][1..], key);
        }
      }
    }
  }

  lemma GetOptional(key: string, value: Option<Json>, other: string)
    ensures Get(OptionalMember(key, value), other) == if other == key then value else None
  {
  }

  /** A network whose location, if any, repr() writes without an exponent,
      so that the text export writes for it passes the location pattern. */
  predicate Reexportable(n: Network) {
    n.location.Some? ==> PositionalRepr(n.location.value.lat) && PositionalRepr(n.location.value.lon)
  }

  /** A network whose every present field is written the way import itself
      stores it: a valid name or group without a final newline, a valid CIDR
      block, a point of Python floats in range, a two-letter code. */
  predicate Canonical(n: Network) {
    && (n.name.Some? ==> ValidNetworkNameFormat(n.name.value) && DollarBody(n.name.value) == n.name.value)
    && (n.cidr.Some? ==> ValidCidrFormat(n.cidr.value))
    && (n.group.Some? ==> ValidGroupFormat(n.group.value) && DollarBody(n.group.value) == n.group.value)
    && (n.location.Some? ==>
          IsFloatRepr(n.location.value.lat) && IsFloatRepr(n.location.value.lon)
          && InRange(n.location.value.lat, n.location.value.lon))
    && (n.countryCode.Some? ==>
          |n.countryCode.value| == 2 && IsUpper(n.countryCode.value[0]) && IsUpper(n.countryCode.value[1]))
  }
}
