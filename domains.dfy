/** The domain listing, check_domain: one line per domain of the list the
    remote answers, the default domain (id 0) always under its fixed name,
    and "N/A" for every name or description that is missing or empty. */
module Domains {
  import opened Wrappers
  import opened Json

  /** What one line shows of a domain: its id (or "N/A"), the name shown and
      the description shown. */
  datatype DomainView = DomainView(id: Json, name: Json, description: Json)

  /** The lines printed, in order, and the exception that ended the listing
      early, if one did. */
  datatype Report = Report(lines: seq<string>, error: Option<PyError>)

  const NotAvailable: Json := JStr("N/A")
  const DefaultDomainName: Json := JStr("DEFAULT_DOMAIN")

  /** `value or 'N/A'` */
  function OrNotAvailable(value: Json): Json {
    if Truthy(value) then value else NotAvailable
  }

  /** What the loop reads of one domain; a domain that is not a dict has no
      .get and raises. */
  function ViewOf(domain: Json): Result<DomainView, PyError> {
    if !domain.JObject? then Err(AttributeError)
    else
      var id := GetOr(domain.members, "id", NotAvailable);
      var name := if EqualsZero(id) then DefaultDomainName else OrNotAvailable(GetOr(domain.members, "name", NotAvailable));
      Ok(DomainView(id, name, OrNotAvailable(GetOr(domain.members, "description", NotAvailable))))
  }

  /** The line printed for a domain; an f-string shows each value as str()
      does. */
  function Line(v: DomainView): string {
    "Domain ID: " + Str(v.id) + ", Domain Name: " + Str(v.name) + ", Description: " + Str(v.description)
  }

  /** The lines printed for a run of domains, up to the first one that
      raises. */
  function Listing(domains: seq<Json>): Report {
    if domains == [] then Report([], None)
    else
      match ViewOf(domains[0])
      case Err(e) => Report([], Some(e))
      case Ok(v) => Prepend([Line(v)], Listing(domains[1..]))
  }

  /** A report with lines printed before it. */
  function Prepend(printed: seq<string>, rest: Report): (r: Report)
    ensures r.lines == printed + rest.lines && r.error == rest.error
  {
    Report(printed + rest.lines, rest.error)
  }

  /** What check_domain prints for the answer to its GET: nothing when the
      answer is not a list (it only logs), otherwise one line per domain. */
  function ReportOf(response: Json): Report {
    if response.JList? then Listing(response.items) else Report([], None)
  }

  /** check_domain: the loop over the domains, printing as it goes. */
  method CheckDomain(response: Json) returns (report: Report)
    ensures report == ReportOf(response)
  {
    if !response.JList? {
      return Report([], None);
    }
    var domains := response.items;
    var lines: seq<string> := [];
    var i := 0;
    assert domains[i..] == domains;
    while i < |domains|
      invariant 0 <= i <= |domains|
      invariant ReportOf(response) == Prepend(lines, Listing(domains[i..]))
    {
      var view := ViewOf(domains[i]);
      assert domains[i..][1..] == domains[i + 1..];
      if view.Err? {
        return Report(lines, Some(view.error));
      }
      lines := lines + [Line(view.value)];
      i := i + 1;
    }
    report := Report(lines, None);
  }

  /** The listing prints one line per domain, in order, each the line of that
      domain, and stops exactly at the first entry that is not a dict, with
      AttributeError; when every entry is a dict, it prints them all. */
  lemma ListingFollowsDomains(domains: seq<Json>)
    ensures var r := Listing(domains);
      && |r.lines| <= |domains|
      && (forall j :: 0 <= j < |r.lines| ==> ViewOf(domains[j]).Ok? && r.lines[j] == Line(ViewOf(domains[j]).value))
      && (r.error == None <==> forall j :: 0 <= j < |domains| ==> domains[j].JObject?)
      && (r.error == None ==> |r.lines| == |domains|)
      && (r.error != None ==> r.error == Some(AttributeError) && !domains[|r.lines|].JObject?)
  {
    ListingLines(domains);
    ListingStops(domains);
  }

  /** The lines printed are those of the first domains, in order. */
  lemma {:induction false} ListingLines(domains: seq<Json>)
    ensures |Listing(domains).lines| <= |domains|
    ensures forall j :: 0 <= j < |Listing(domains).lines| ==>
      ViewOf(domains[j]).Ok? && Listing(domains).lines[j] == Line(ViewOf(domains[j]).value)
    decreases |domains|
  {
    if domains != [] && ViewOf(domains[0]).Ok? {
      ListingLines(domains[1..]);
      var r := Listing(domains);
      forall j | 0 < j < |r.lines|
        ensures ViewOf(domains[j]).Ok? && r.lines[j] == Line(ViewOf(domains[j]).value)
      {
        assert domains[j] == domains[1..][j - 1];
      }
    }
  }

  /** The listing stops exactly at the first entry that is not a dict. */
  lemma {:induction false} ListingStops(domains: seq<Json>)
    ensures Listing(domains).error == None <==> forall j :: 0 <= j < |domains| ==> domains[j].JObject?
    ensures Listing(domains).error == None ==> |Listing(domains).lines| == |domains|
    ensures Listing(domains).error != None ==>
      |Listing(domains).lines| < |domains| && Listing(domains).error == Some(AttributeError)
      && !domains[|Listing(domains).lines|].JObject?
    decreases |domains|
  {
    if domains != [] && ViewOf(domains[0]).Ok? {
      ListingStops(domains[1..]);
      assert forall j :: 0 < j < |domains| ==> domains[j] == domains[1..][j - 1];
    }
  }

  /** A domain whose id equals 0 is always listed as the default domain,
      whatever name it carries. */
  lemma DefaultDomainNamed(domain: Json)
    requires domain.JObject? && EqualsZero(GetOr(domain.members, "id", NotAvailable))
    ensures ViewOf(domain).Ok? && ViewOf(domain).value.name == DefaultDomainName
    ensures Str(ViewOf(domain).value.name) == "DEFAULT_DOMAIN"
  {
  }

  /** The name and description shown are never empty, null, zero or false: a
      present truthy value is shown as it is (the name only for a domain
      other than the default), and anything else becomes "N/A". */
  lemma ViewNeverBlank(domain: Json)
    requires ViewOf(domain).Ok?
    ensures Truthy(ViewOf(domain).value.name) && Truthy(ViewOf(domain).value.description)
    ensures var name := Get(domain.members, "name");
      !EqualsZero(ViewOf(domain).value.id) ==>
        (ViewOf(domain).value.name == NotAvailable <==> (name.None? || !Truthy(name.value) || name.value == NotAvailable))
    ensures var description := Get(domain.members, "description");
      ViewOf(domain).value.description == NotAvailable <==>
        (description.None? || !Truthy(description.value) || description.value == NotAvailable)
  {
  }
}
