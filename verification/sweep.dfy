/** The sequential sweep of scan_network (modules/audit.py): the /24-style base taken
    from the configured subnet, the candidates base.1 .. base.59 in order, the
    classification through KNOWN_HOSTS and the end-of-life resolution of every
    candidate that answers. ping_host is replaced by an `alive` oracle. */
module Sweep {
  import opened Wrappers
  import opened Text
  import opened Calendar
  import opened Eol

  /** KNOWN_HOSTS: the static IP to OS-label inventory. */
  const KnownHosts: map<string, string> := map[
    "192.168.10.10" := "Windows Server 2016",
    "192.168.10.11" := "Windows Server 2016",
    "192.168.10.21" := "Ubuntu 20.04 LTS",
    "192.168.10.22" := "Ubuntu 20.04 LTS",
    "192.168.10.40" := "CentOS 7",
    "192.168.10.50" := "Windows Server 2019"
  ]

  const UnknownOs := "Inconnu"
  const DefaultSubnet := "192.168.10.0/24"
  /** The candidates are base.FirstOctet .. base.(EndOctet - 1): range(1, 60). */
  const FirstOctet: nat := 1
  const EndOctet: nat := 60

  /** config.get("network", {}).get("target_subnet", "192.168.10.0/24"), with the
      configured value already extracted (None when either key is missing). */
  function TargetSubnet(configured: Option<string>): (subnet: string)
    ensures configured.Some? ==> subnet == configured.value
    ensures configured.None? ==> subnet == DefaultSubnet
  {
    configured.GetOr(DefaultSubnet)
  }

  /** ".".join(subnet.split('.')[:3]): the text before the third dot, or the whole
      subnet when it has fewer than three dots. A prefix length is not interpreted. */
  function BaseIp(subnet: string): (base: string)
    ensures |base| <= |subnet| && subnet[..|base|] == base
    ensures Count(base, '.') <= 2
    ensures |base| < |subnet| ==> subnet[|base|] == '.' && Count(base, '.') == 2
  {
    var fields := Split(subnet, '.');
    var k := if |fields| < 3 then |fields| else 3;
    var base := Join(fields[..k], '.');
    SplitShape(subnet, '.');
    JoinSplit(subnet, '.');
    JoinPrefix(fields, k, '.');
    CountJoin(fields[..k], '.');
    assert k < |fields| ==> subnet == base + ['.'] + Join(fields[k..], '.');
    base
  }

  /** f"{base_ip}.{i}". */
  function CandidateIp(base: string, i: nat): string {
    base + "." + Decimal(i)
  }

  /** KNOWN_HOSTS.get(ip, "Inconnu"). */
  function Classify(ip: string): string {
    if ip in KnownHosts then KnownHosts[ip] else UnknownOs
  }

  /** One row of the report: {"ip", "os", "status", "eol_date"}. */
  datatype Host = Host(ip: string, os: string, status: string, eolDate: string)

  /** The sweep either completes with its rows, or is cut short by the TypeError
      raised while resolving the host at `ip`; no report is written then. */
  datatype ScanResult = Completed(hosts: seq<Host>) | Aborted(ip: string)

  /** The row appended for a live host whose resolution returned. */
  function Row(ip: string, outcome: Outcome): Host
    requires outcome.Reported?
  {
    Host(ip, Classify(ip), StatusText(outcome.status), outcome.date)
  }

  /** What the loop body computes for a live address: get_eol_status of its label.
      Each call for a mapped label makes its own request, and each call whose date
      parses reads the clock again, so the replies and the time are both per
      address: `service(ip)` answers the requests made while resolving `ip`, and
      `now(ip)` is the clock reading taken then, if one is taken. */
  function Examine(service: string -> string -> Reply, now: string -> DateTime): string -> Outcome {
    (ip: string) => GetEolStatus(Classify(ip), service(ip), now(ip))
  }

  /** Rows found so far, followed by whatever the rest of the sweep gives. */
  function Then(found: seq<Host>, rest: ScanResult): ScanResult {
    match rest
    case Completed(hs) => Completed(found + hs)
    case Aborted(ip) => Aborted(ip)
  }

  /** The loop `for i in range(first, 60)` as a recursion over the octet. */
  function SweepFrom(base: string, first: nat, alive: string -> bool, examine: string -> Outcome): ScanResult
    decreases EndOctet - first
  {
    if first >= EndOctet then Completed([])
    else
      var ip := CandidateIp(base, first);
      var rest := SweepFrom(base, first + 1, alive, examine);
      if !alive(ip) then rest
      else
        var outcome := examine(ip);
        if outcome.TypeError? then Aborted(ip) else Then([Row(ip, outcome)], rest)
  }

  /** The octets from `first` on whose candidate answers, in increasing order. */
  function LiveOctets(base: string, first: nat, alive: string -> bool): (octets: seq<nat>)
    decreases EndOctet - first
    ensures forall k :: 0 <= k < |octets| ==> first <= octets[k] < EndOctet && alive(CandidateIp(base, octets[k]))
    ensures forall j, k :: 0 <= j < k < |octets| ==> octets[j] < octets[k]
    ensures forall n :: first <= n < EndOctet && alive(CandidateIp(base, n)) ==> n in octets
  {
    if first >= EndOctet then []
    else
      var rest := LiveOctets(base, first + 1, alive);
      if alive(CandidateIp(base, first)) then [first] + rest else rest
  }

  /** The candidate at octet n answers, and resolving it raises TypeError. */
  predicate Crashes(base: string, n: nat, alive: string -> bool, examine: string -> Outcome) {
    alive(CandidateIp(base, n)) && examine(CandidateIp(base, n)).TypeError?
  }

  /** The loop of scan_network over the candidates of `base`: every live candidate is
      examined in octet order and its row appended, until a resolution raises. */
  method SweepLoop(base: string, alive: string -> bool, examine: string -> Outcome) returns (r: ScanResult)
    ensures r == SweepFrom(base, FirstOctet, alive, examine)
  {
    var hosts: seq<Host> := [];
    var i := FirstOctet;
    while i < EndOctet
      invariant FirstOctet <= i <= EndOctet
      invariant SweepFrom(base, FirstOctet, alive, examine) == Then(hosts, SweepFrom(base, i, alive, examine))
    {
      var ip := CandidateIp(base, i);
      if alive(ip) {
        var outcome := examine(ip);
        if outcome.TypeError? {
          r := Aborted(ip);
          return;
        }
        hosts := hosts + [Host(ip, Classify(ip), StatusText(outcome.status), outcome.date)];
      }
      i := i + 1;
    }
    r := Completed(hosts);
  }

  /** scan_network(config) up to, not including, the CSV export: the base of the
      configured subnet, then the loop with get_eol_status(KNOWN_HOSTS.get(ip, "Inconnu")). */
  method ScanNetwork(configured: Option<string>, alive: string -> bool, service: string -> string -> Reply, now: string -> DateTime)
    returns (r: ScanResult)
    ensures r == SweepFrom(BaseIp(TargetSubnet(configured)), FirstOctet, alive, Examine(service, now))
  {
    var base := BaseIp(TargetSubnet(configured));
    r := SweepLoop(base, alive, Examine(service, now));
  }

  // ---------------------------------------------------------------------------
  // Properties of the sweep

  /** Different octets give different addresses. */
  lemma CandidateIpInjective(base: string, m: nat, n: nat)
    requires CandidateIp(base, m) == CandidateIp(base, n)
    ensures m == n
  {
    var a, b := CandidateIp(base, m), CandidateIp(base, n);
    assert Decimal(m) == a[|base| + 1..] == b[|base| + 1..] == Decimal(n);
    DecimalInjective(m, n);
  }

  /** hs holds, in order, the row of each candidate octet of `octets`. */
  predicate RowsMatch(hs: seq<Host>, octets: seq<nat>, base: string, examine: string -> Outcome) {
    |hs| == |octets| &&
    forall k :: 0 <= k < |hs| ==>
      examine(CandidateIp(base, octets[k])).Reported? &&
      hs[k] == Row(CandidateIp(base, octets[k]), examine(CandidateIp(base, octets[k])))
  }

  lemma RowsMatchCons(h: Host, hs: seq<Host>, n: nat, octets: seq<nat>, base: string, examine: string -> Outcome)
    requires RowsMatch(hs, octets, base, examine)
    requires examine(CandidateIp(base, n)).Reported? && h == Row(CandidateIp(base, n), examine(CandidateIp(base, n)))
    ensures RowsMatch([h] + hs, [n] + octets, base, examine)
  {
    assert forall k :: 1 <= k < |hs| + 1 ==> ([h] + hs)[k] == hs[k - 1] && ([n] + octets)[k] == octets[k - 1];
  }

  /** A completed sweep has one row per live candidate, in octet order, each row
      the classification and resolution of its address. */
  lemma {:induction false} SweepRows(base: string, first: nat, alive: string -> bool, examine: string -> Outcome)
    requires SweepFrom(base, first, alive, examine).Completed?
    decreases EndOctet - first
    ensures RowsMatch(SweepFrom(base, first, alive, examine).hosts, LiveOctets(base, first, alive), base, examine)
  {
    if first < EndOctet {
      var ip := CandidateIp(base, first);
      var rest := SweepFrom(base, first + 1, alive, examine);
      SweepRows(base, first + 1, alive, examine);
      if alive(ip) {
        RowsMatchCons(Row(ip, examine(ip)), rest.hosts, first, LiveOctets(base, first + 1, alive), base, examine);
      }
    }
  }

  /** The sweep is cut short exactly when some live candidate's resolution raises,
      and then at the first such candidate. */
  lemma {:induction false} SweepAborts(base: string, first: nat, alive: string -> bool, examine: string -> Outcome)
    decreases EndOctet - first
    ensures var r := SweepFrom(base, first, alive, examine);
            r.Aborted? <==> exists n :: first <= n < EndOctet && Crashes(base, n, alive, examine)
    ensures var r := SweepFrom(base, first, alive, examine);
            r.Aborted? ==> exists n :: first <= n < EndOctet && Crashes(base, n, alive, examine) &&
                              r.ip == CandidateIp(base, n) &&
                              forall m :: first <= m < n ==> !Crashes(base, m, alive, examine)
  {
    if first < EndOctet {
      SweepAborts(base, first + 1, alive, examine);
      var r := SweepFrom(base, first, alive, examine);
      var rest := SweepFrom(base, first + 1, alive, examine);
      if Crashes(base, first, alive, examine) {
        assert r == Aborted(CandidateIp(base, first));
      } else {
        assert r.Aborted? <==> rest.Aborted?;
        assert (exists n :: first <= n < EndOctet && Crashes(base, n, alive, examine)) <==>
               (exists n :: first + 1 <= n < EndOctet && Crashes(base, n, alive, examine));
        if r.Aborted? {
          assert r.ip == rest.ip;
          var n :| first + 1 <= n < EndOctet && Crashes(base, n, alive, examine) && rest.ip == CandidateIp(base, n) &&
                   forall m :: first + 1 <= m < n ==> !Crashes(base, m, alive, examine);
          assert forall m :: first <= m < n ==> !Crashes(base, m, alive, examine);
        }
      }
    }
  }

  /** The rows of a completed sweep are in strictly increasing octet order, so no
      address appears twice. */
  lemma SweepInOrder(base: string, alive: string -> bool, examine: string -> Outcome)
    requires SweepFrom(base, FirstOctet, alive, examine).Completed?
    ensures var hs := SweepFrom(base, FirstOctet, alive, examine).hosts;
            var octets := LiveOctets(base, FirstOctet, alive);
            && |hs| == |octets|
            && (forall k :: 0 <= k < |hs| ==> hs[k].ip == CandidateIp(base, octets[k]))
            && (forall j, k :: 0 <= j < k < |hs| ==> octets[j] < octets[k] && hs[j].ip != hs[k].ip)
  {
    var hs := SweepFrom(base, FirstOctet, alive, examine).hosts;
    var octets := LiveOctets(base, FirstOctet, alive);
    SweepRows(base, FirstOctet, alive, examine);
    forall j, k | 0 <= j < k < |hs|
      ensures hs[j].ip != hs[k].ip
    {
      if hs[j].ip == hs[k].ip {
        CandidateIpInjective(base, octets[j], octets[k]);
      }
    }
  }

  /** A completed sweep reports exactly the candidates that answer. */
  lemma SweepCoversLive(base: string, alive: string -> bool, examine: string -> Outcome)
    requires SweepFrom(base, FirstOctet, alive, examine).Completed?
    ensures var hs := SweepFrom(base, FirstOctet, alive, examine).hosts;
            forall n :: FirstOctet <= n < EndOctet ==>
              (alive(CandidateIp(base, n)) <==> exists k :: 0 <= k < |hs| && hs[k].ip == CandidateIp(base, n))
  {
    var hs := SweepFrom(base, FirstOctet, alive, examine).hosts;
    var octets := LiveOctets(base, FirstOctet, alive);
    SweepRows(base, FirstOctet, alive, examine);
    forall n | FirstOctet <= n < EndOctet
      ensures alive(CandidateIp(base, n)) <==> exists k :: 0 <= k < |hs| && hs[k].ip == CandidateIp(base, n)
    {
      if alive(CandidateIp(base, n)) {
        var k :| 0 <= k < |octets| && octets[k] == n;
        assert hs[k].ip == CandidateIp(base, n);
      }
      if exists k :: 0 <= k < |hs| && hs[k].ip == CandidateIp(base, n) {
        var k :| 0 <= k < |hs| && hs[k].ip == CandidateIp(base, n);
        CandidateIpInjective(base, octets[k], n);
      }
    }
  }

  /** Each row of a completed scan carries KNOWN_HOSTS[ip], or "Inconnu" for an
      address not in the inventory, and the status and date resolved for that label. */
  lemma ScanRowContents(base: string, alive: string -> bool, service: string -> string -> Reply, now: string -> DateTime)
    requires SweepFrom(base, FirstOctet, alive, Examine(service, now)).Completed?
    ensures var hs := SweepFrom(base, FirstOctet, alive, Examine(service, now)).hosts;
            forall k :: 0 <= k < |hs| ==>
              && (hs[k].ip in KnownHosts ==> hs[k].os == KnownHosts[hs[k].ip])
              && (hs[k].ip !in KnownHosts ==> hs[k].os == UnknownOs)
              && var out := GetEolStatus(hs[k].os, service(hs[k].ip), now(hs[k].ip));
                 out.Reported? && hs[k].status == StatusText(out.status) && hs[k].eolDate == out.date
  {
    SweepRows(base, FirstOctet, alive, Examine(service, now));
  }

  /** `if audit_results:` the CSV report is written only for a completed sweep that
      found at least one host. */
  predicate WritesReport(r: ScanResult) {
    r.Completed? && |r.hosts| > 0
  }

  /** A report is written exactly when the sweep completes and some candidate answers. */
  lemma ReportIffSomeAnswer(base: string, alive: string -> bool, examine: string -> Outcome)
    ensures var r := SweepFrom(base, FirstOctet, alive, examine);
            WritesReport(r) <==> r.Completed? && exists n :: FirstOctet <= n < EndOctet && alive(CandidateIp(base, n))
  {
    var r := SweepFrom(base, FirstOctet, alive, examine);
    if r.Completed? {
      SweepRows(base, FirstOctet, alive, examine);
      var octets := LiveOctets(base, FirstOctet, alive);
      if exists n :: FirstOctet <= n < EndOctet && alive(CandidateIp(base, n)) {
        var n :| FirstOctet <= n < EndOctet && alive(CandidateIp(base, n));
        assert n in octets;
      }
      if |r.hosts| > 0 {
        assert FirstOctet <= octets[0] < EndOctet && alive(CandidateIp(base, octets[0]));
      }
    }
  }

  // ---------------------------------------------------------------------------
  // The tables and the subnet

  /** Every label of the inventory can be resolved against the service. */
  lemma KnownHostsAreMapped()
    ensures forall ip :: ip in KnownHosts ==> KnownHosts[ip] in ApiMapping
    ensures UnknownOs !in ApiMapping
  {
  }

  const KnownBase := "192.168.10"

  /** All inventory addresses lie in 192.168.10. */
  lemma KnownHostShape(ip: string)
    requires ip in KnownHosts
    ensures |ip| > |KnownBase| + 1 && ip == KnownBase + "." + ip[|KnownBase| + 1..] && '.' !in ip[|KnownBase| + 1..]
  {
  }

  /** Only a sweep of 192.168.10 can find an inventory address. */
  lemma ForeignCandidateUnknown(base: string, n: nat)
    requires base != KnownBase
    ensures CandidateIp(base, n) !in KnownHosts
  {
    var ip := CandidateIp(base, n);
    if ip in KnownHosts {
      KnownHostShape(ip);
      LastSeparator(base, Decimal(n), KnownBase, ip[|KnownBase| + 1..], '.');
      assert false;
    }
  }

  /** An address outside the inventory is resolved as unmapped, with date "N/A". */
  lemma UnknownIsUnmapped(ip: string, service: string -> string -> Reply, now: string -> DateTime)
    requires ip !in KnownHosts
    ensures Examine(service, now)(ip) == Reported(Unmapped, NotApplicable)
  {
    assert Classify(ip) == UnknownOs;
    KnownHostsAreMapped();
    assert Examine(service, now)(ip) == GetEolStatus(UnknownOs, service(ip), now(ip));
  }

  /** A sweep whose candidates are all outside the inventory and all resolve as
      unmapped completes, with every row "Inconnu", unmapped, "N/A". */
  lemma {:induction false} UnknownSweepIsUnmapped(base: string, first: nat, alive: string -> bool, examine: string -> Outcome)
    requires forall n :: first <= n < EndOctet ==>
               CandidateIp(base, n) !in KnownHosts && examine(CandidateIp(base, n)) == Reported(Unmapped, NotApplicable)
    decreases EndOctet - first
    ensures var r := SweepFrom(base, first, alive, examine);
            r.Completed? &&
            forall k :: 0 <= k < |r.hosts| ==>
              r.hosts[k].os == UnknownOs && r.hosts[k].status == StatusText(Unmapped) && r.hosts[k].eolDate == NotApplicable
  {
    if first < EndOctet {
      UnknownSweepIsUnmapped(base, first + 1, alive, examine);
      var ip := CandidateIp(base, first);
      assert Classify(ip) == UnknownOs;
    }
  }

  /** A sweep outside 192.168.10 classifies every live host as "Inconnu", reports it
      unmapped with date "N/A", never aborts, and never needs the service. */
  lemma ForeignSweepIsUnmapped(base: string, alive: string -> bool, service: string -> string -> Reply, now: string -> DateTime)
    requires base != KnownBase
    ensures var r := SweepFrom(base, FirstOctet, alive, Examine(service, now));
            r.Completed? &&
            forall k :: 0 <= k < |r.hosts| ==>
              r.hosts[k].os == UnknownOs && r.hosts[k].status == StatusText(Unmapped) && r.hosts[k].eolDate == NotApplicable
  {
    forall n | FirstOctet <= n < EndOctet
      ensures CandidateIp(base, n) !in KnownHosts
      ensures Examine(service, now)(CandidateIp(base, n)) == Reported(Unmapped, NotApplicable)
    {
      ForeignCandidateUnknown(base, n);
      UnknownIsUnmapped(CandidateIp(base, n), service, now);
    }
    UnknownSweepIsUnmapped(base, FirstOctet, alive, Examine(service, now));
  }
}
