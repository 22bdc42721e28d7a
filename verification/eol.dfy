/** End-of-life status resolution (modules/audit.py): the OS-label to product/cycle
    table, the search of the lifecycle service's release list, and the five-way
    status decision. The HTTP call is replaced by a `service` parameter mapping a
    URL to the reply it would give, and datetime.now() by a `now` parameter. */
module Eol {
  import opened Wrappers
  import opened Text
  import opened Calendar

  // ---------------------------------------------------------------------------
  // The lifecycle service's reply

  /** The JSON values a release field can hold (numbers are integral here). An array
      or an object is known only by its number of elements: the program tests it for
      truthiness and hands it to strptime, which looks no further. */
  datatype Value = Null | Bool(b: bool) | Num(n: int) | Str(s: string) | Container(size: nat)

  /** Python truthiness: None, False, 0, "" and an empty list or dict are false. */
  predicate Truthy(v: Value) {
    match v
    case Null => false
    case Bool(b) => b
    case Num(n) => n != 0
    case Str(s) => s != ""
    case Container(size) => size > 0
  }

  /** One element of the release list: an object whose "cycle" and "eol" keys may be
      missing (None), or some other JSON value that cannot be indexed by a key. */
  datatype Entry = Release(cycle: Option<Value>, eol: Option<Value>) | NotAnObject

  /** The decoded body: a list of releases, or anything whose decoding or iteration
      raises (invalid JSON, a non-list body). */
  datatype Payload = Malformed | Releases(entries: seq<Entry>)

  /** What requests.get produces: an exception (no connection, timeout) or a reply. */
  datatype Reply = Unreachable | Response(statusCode: int, payload: Payload)

  // ---------------------------------------------------------------------------
  // The static mapping and the request

  /** API_MAPPING: OS label to (product, cycle) on endoflife.date. */
  const ApiMapping: map<string, (string, string)> := map[
    "Windows Server 2016" := ("windows-server", "2016"),
    "Windows Server 2019" := ("windows-server", "2019"),
    "Ubuntu 20.04 LTS" := ("ubuntu", "20.04"),
    "CentOS 7" := ("centos", "7"),
    "Windows 10" := ("windows", "10"),
    "ESXi 6.5" := ("vmware-esxi", "6.5")
  ]

  function ApiUrl(product: string): string {
    "https://endoflife.date/api/" + product + ".json"
  }

  /** Different products are fetched from different URLs. */
  lemma ApiUrlInjective(p: string, q: string)
    requires ApiUrl(p) == ApiUrl(q)
    ensures p == q
  {
    var prefix := "https://endoflife.date/api/";
    assert |p| == |q|;
    assert p == ApiUrl(p)[|prefix|..|prefix| + |p|];
    assert q == ApiUrl(q)[|prefix|..|prefix| + |q|];
  }

  // ---------------------------------------------------------------------------
  // fetch_eol_date_from_api: the loop over the release list

  /** The loop moves past entry e: it is an object with a "cycle" key that differs. */
  predicate Skips(e: Entry, cycle: string) {
    e.Release? && e.cycle.Some? && e.cycle.value != Str(cycle)
  }

  /** The loop returns at entry e: its "cycle" equals the wanted cycle. */
  predicate Hits(e: Entry, cycle: string) {
    e.Release? && e.cycle == Some(Str(cycle))
  }

  /** What `return entry['eol']` yields for a hit; a missing key raises KeyError,
      which the surrounding handler turns into None. */
  function EolOf(e: Entry): Value
    requires e.Release?
  {
    if e.eol.Some? then e.eol.value else Null
  }

  /** The `for entry in data` loop: the "eol" of the first entry whose cycle equals
      `cycle` (string equality), None when the list is exhausted, and None when an
      entry before the match cannot be read (KeyError or TypeError, swallowed). */
  function FindCycle(entries: seq<Entry>, cycle: string): (r: Value)
    ensures forall k :: (0 <= k < |entries| && Hits(entries[k], cycle) &&
                         (forall j :: 0 <= j < k ==> Skips(entries[j], cycle))) ==> r == EolOf(entries[k])
    ensures forall k :: (0 <= k < |entries| && !Hits(entries[k], cycle) && !Skips(entries[k], cycle) &&
                         (forall j :: 0 <= j < k ==> Skips(entries[j], cycle))) ==> r == Null
    ensures (forall j :: 0 <= j < |entries| ==> Skips(entries[j], cycle)) ==> r == Null
    ensures r != Null ==> exists k :: 0 <= k < |entries| && Hits(entries[k], cycle) && entries[k].eol == Some(r)
  {
    if |entries| == 0 then Null
    else
      var e := entries[0];
      if Hits(e, cycle) then EolOf(e)
      else if !Skips(e, cycle) then Null
      else
        var r := FindCycle(entries[1..], cycle);
        assert forall k :: 1 <= k < |entries| ==> entries[1..][k - 1] == entries[k];
        r
  }

  /** fetch_eol_date_from_api(product, cycle) given the reply to its GET request. */
  function FetchEol(reply: Reply, cycle: string): (r: Value)
    ensures reply.Unreachable? ==> r == Null
    ensures reply.Response? && reply.statusCode != 200 ==> r == Null
    ensures reply.Response? && reply.payload.Malformed? ==> r == Null
    ensures reply.Response? && reply.statusCode == 200 && reply.payload.Releases? ==>
              r == FindCycle(reply.payload.entries, cycle)
  {
    match reply
    case Unreachable => Null
    case Response(code, payload) =>
      if code != 200 then Null
      else match payload
        case Malformed => Null
        case Releases(entries) => FindCycle(entries, cycle)
  }

  // ---------------------------------------------------------------------------
  // get_eol_status

  datatype Status = Unmapped | ApiError | BadDate | Obsolete | Supported

  /** The status strings written to the report. */
  function StatusText(s: Status): string {
    match s
    case Unmapped => "INCONNU (Pas de mapping API)"
    case ApiError => "ERREUR API (Vérifier Internet)"
    case BadDate => "ERREUR FORMAT DATE"
    case Obsolete => "OBSOLÈTE (DANGER)"
    case Supported => "SUPPORTÉ"
  }

  const NotApplicable := "N/A"

  /** The pair get_eol_status returns, or the TypeError that strptime raises for a
      truthy non-string "eol" (true, a non-zero number, a non-empty array or object),
      which nothing catches. */
  datatype Outcome = Reported(status: Status, date: string) | TypeError

  /** The decision made on the value fetched for a mapped label. */
  function Decide(eol: Value, now: DateTime): (r: Outcome)
    ensures !Truthy(eol) <==> r == Reported(ApiError, NotApplicable)
    ensures r == TypeError <==> Truthy(eol) && !eol.Str?
    ensures r.Reported? && r.status != ApiError ==> eol == Str(r.date)
    ensures eol.Str? && eol.s != "" ==>
              (r == Reported(BadDate, eol.s) <==> ParseIsoDate(eol.s).None?)
    ensures eol.Str? && ParseIsoDate(eol.s).Some? ==>
              var d := ParseIsoDate(eol.s).value;
              r == Reported(if Later(now, Midnight(d)) then Obsolete else Supported, eol.s)
  {
    if !Truthy(eol) then Reported(ApiError, NotApplicable)
    else match eol
      case Str(s) =>
        (match ParseIsoDate(s)
         case None => Reported(BadDate, s)
         case Some(d) => if Later(now, Midnight(d)) then Reported(Obsolete, s) else Reported(Supported, s))
      case _ => TypeError
  }

  /** The value fetched for a mapped label. */
  function Lookup(osName: string, service: string -> Reply): Value
    requires osName in ApiMapping
  {
    var (product, cycle) := ApiMapping[osName];
    FetchEol(service(ApiUrl(product)), cycle)
  }

  /** get_eol_status(os_name) with the lifecycle service and the clock as parameters. */
  function GetEolStatus(osName: string, service: string -> Reply, now: DateTime): (r: Outcome)
    ensures osName !in ApiMapping <==> r == Reported(Unmapped, NotApplicable)
    ensures osName in ApiMapping ==> r == Decide(Lookup(osName, service), now)
  {
    if osName !in ApiMapping then Reported(Unmapped, NotApplicable)
    else Decide(Lookup(osName, service), now)
  }

  // ---------------------------------------------------------------------------
  // Properties

  /** The status strings are five distinct strings, so the report names the status. */
  lemma StatusTextInjective(a: Status, b: Status)
    requires StatusText(a) == StatusText(b)
    ensures a == b
  {
  }

  /** An unmapped label is answered without consulting the service at all. */
  lemma UnmappedMakesNoRequest(osName: string, s1: string -> Reply, s2: string -> Reply, now: DateTime)
    requires osName !in ApiMapping
    ensures GetEolStatus(osName, s1, now) == GetEolStatus(osName, s2, now) == Reported(Unmapped, NotApplicable)
  {
  }

  /** A mapped label depends on the service only through the reply for its product's URL. */
  lemma MappedMakesOneRequest(osName: string, s1: string -> Reply, s2: string -> Reply, now: DateTime)
    requires osName in ApiMapping
    requires s1(ApiUrl(ApiMapping[osName].0)) == s2(ApiUrl(ApiMapping[osName].0))
    ensures GetEolStatus(osName, s1, now) == GetEolStatus(osName, s2, now)
  {
  }

  /** A reply whose release list holds no entry for the mapped cycle gives the API-error
      status, not the unknown one. */
  lemma NoMatchingCycleIsApiError(osName: string, service: string -> Reply, now: DateTime)
    requires osName in ApiMapping
    requires var reply := service(ApiUrl(ApiMapping[osName].0));
             reply.Response? && reply.statusCode == 200 && reply.payload.Releases? &&
             forall j :: 0 <= j < |reply.payload.entries| ==> Skips(reply.payload.entries[j], ApiMapping[osName].1)
    ensures GetEolStatus(osName, service, now) == Reported(ApiError, NotApplicable)
  {
  }

  /** The date column is "N/A" for the unmapped and API-error statuses and the raw
      "eol" string otherwise, so "N/A" alone does not identify those two: an "eol"
      of "N/A" is reported as a malformed date with date "N/A". */
  lemma DateColumn(osName: string, service: string -> Reply, now: DateTime)
    ensures var r := GetEolStatus(osName, service, now);
            r.Reported? && (r.status == Unmapped || r.status == ApiError) ==> r.date == NotApplicable
    ensures var r := GetEolStatus(osName, service, now);
            r.Reported? && r.status != Unmapped && r.status != ApiError ==> Lookup(osName, service) == Str(r.date)
  {
  }

  lemma NotApplicableIsBadDate(now: DateTime)
    ensures ParseIsoDate(NotApplicable).None?
    ensures Decide(Str(NotApplicable), now) == Reported(BadDate, NotApplicable)
  {
  }

  /** Once obsolete, always obsolete: an "eol" that is past at time t is past at every
      later time, and the reported pair does not change. */
  lemma ObsoleteStaysObsolete(eol: Value, t: DateTime, t': DateTime)
    requires Decide(eol, t).Reported? && Decide(eol, t).status == Obsolete
    requires !Later(t, t')
    ensures Decide(eol, t') == Decide(eol, t)
  {
    var d := ParseIsoDate(eol.s).value;
    LaterTotal(t, t');
    if t != t' {
      LaterTransitive(t', t, Midnight(d));
    }
  }

  /** The comparison is against midnight: on the end-of-life day itself, every moment
      after 00:00:00 is already reported obsolete. */
  lemma ObsoleteFromMidnightOfEolDay(s: string, now: DateTime)
    requires ValidDateTime(now)
    requires ParseIsoDate(s) == Some(now.date)
    ensures Decide(Str(s), now) ==
              Reported(if (now.hour, now.minute, now.second, now.micro) == (0, 0, 0, 0) then Supported else Obsolete, s)
  {
    LaterThanMidnightSameDay(now);
  }
}
