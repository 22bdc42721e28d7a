/** Concrete scenarios: the default subnet, a mocked lifecycle service, and a sweep
    in which a single inventory host answers. */
module Scenarios {
  import opened Wrappers
  import opened Text
  import opened Calendar
  import opened Eol
  import opened Sweep

  /** A mocked service for one product, answering with a single release. */
  function OneRelease(product: string, cycle: string, eol: string): string -> Reply {
    (url: string) =>
      if url == ApiUrl(product) then Response(200, Releases([Release(Some(Str(cycle)), Some(Str(eol)))]))
      else Unreachable
  }

  /** A service with a single release for the mapped cycle hands back its "eol". */
  lemma OneReleaseLookup(osName: string, eol: string)
    requires osName in ApiMapping
    ensures Lookup(osName, OneRelease(ApiMapping[osName].0, ApiMapping[osName].1, eol)) == Str(eol)
  {
    var (product, cycle) := ApiMapping[osName];
    var entries := [Release(Some(Str(cycle)), Some(Str(eol)))];
    assert OneRelease(product, cycle, eol)(ApiUrl(product)) == Response(200, Releases(entries));
    assert Hits(entries[0], cycle);
  }

  lemma ParseExampleDate()
    ensures ParseIsoDate("2015-01-01") == Some(Date(2015, 1, 1))
  {
    ExampleParts();
    Year2015();
    TokenOne();
    assert ValidDate(Date(2015, 1, 1));
  }

  lemma ExampleParts()
    ensures ParseIsoDate("2015-01-01") == BuildDate("2015", "01", "01")
  {
    assert IsMonthToken("01");
    ParseParts("2015", "01", "01");
    assert "2015" + "-" + "01" + "-" + "01" == "2015-01-01";
  }

  lemma TokenOne()
    ensures IsMonthToken("01") && IsDayToken("01") && TokenValue("01") == 1
  {
  }

  lemma Year2015()
    ensures YearValue("2015") == 2015
  {
    assert "2015"[..3] == "201" && "201"[..2] == "20" && "20"[..1] == "2" && "2"[..0] == "";
  }

  /** An end-of-life date of 2015-01-01 is obsolete on any later day and supported
      on any earlier one. */
  lemma Example2015(osName: string, now: DateTime)
    requires osName in ApiMapping
    requires ValidDateTime(now)
    ensures var service := OneRelease(ApiMapping[osName].0, ApiMapping[osName].1, "2015-01-01");
            && (now.date.year >= 2016 ==> GetEolStatus(osName, service, now) == Reported(Obsolete, "2015-01-01"))
            && (now.date.year <= 2014 ==> GetEolStatus(osName, service, now) == Reported(Supported, "2015-01-01"))
  {
    var d := Date(2015, 1, 1);
    OneReleaseLookup(osName, "2015-01-01");
    ParseExampleDate();
    if now.date.year >= 2016 {
      LaterDayIsLater(now, d);
    } else if now.date.year <= 2014 {
      assert !Later(now, Midnight(d));
    }
  }

  /** With no configured subnet the sweep covers 192.168.10.1 .. 192.168.10.59. */
  lemma DefaultBase()
    ensures BaseIp(TargetSubnet(None)) == KnownBase
  {
    DefaultSubnetFields();
    BaseOfFields(DefaultSubnet);
  }

  lemma BaseOfFields(subnet: string)
    requires Split(subnet, '.') == ["192", "168", "10", "0/24"]
    ensures BaseIp(subnet) == KnownBase
  {
    var fields := Split(subnet, '.');
    assert fields[..3] == ["192", "168", "10"];
    KnownBaseFields();
  }

  lemma KnownBaseFields()
    ensures Join(["192", "168", "10"], '.') == KnownBase
  {
    var f := ["192", "168", "10"];
    assert f[1..] == ["168", "10"] && f[2..] == ["10"];
  }

  lemma DefaultSubnetFields()
    ensures Split(DefaultSubnet, '.') == ["192", "168", "10", "0/24"]
  {
    var fields := ["192", "168", "10", "0/24"];
    assert Join(fields, '.') == DefaultSubnet by {
      assert fields[1..] == ["168", "10", "0/24"] && fields[2..] == ["10", "0/24"] && fields[3..] == ["0/24"];
      assert Join(fields[3..], '.') == "0/24";
      assert Join(fields[2..], '.') == "10.0/24";
      assert Join(fields[1..], '.') == "168.10.0/24";
    }
    assert forall k :: 0 <= k < |fields| ==> '.' !in fields[k];
    SplitJoin(fields, '.');
  }

  const CentOsHost := "192.168.10.40"

  lemma CentOsCandidate()
    ensures CandidateIp(KnownBase, 40) == CentOsHost
    ensures forall n: nat :: CandidateIp(KnownBase, n) == CentOsHost ==> n == 40
  {
    assert Decimal(40) == "40";
    forall n: nat | CandidateIp(KnownBase, n) == CentOsHost
      ensures n == 40
    {
      CandidateIpInjective(KnownBase, n, 40);
    }
  }

  /** A sweep in which one candidate answers and resolves yields exactly its row. */
  lemma SingleLiveCandidate(base: string, n: nat, alive: string -> bool, examine: string -> Outcome)
    requires LiveOctets(base, FirstOctet, alive) == [n]
    requires examine(CandidateIp(base, n)).Reported?
    ensures SweepFrom(base, FirstOctet, alive, examine) ==
              Completed([Row(CandidateIp(base, n), examine(CandidateIp(base, n)))])
  {
    SweepAborts(base, FirstOctet, alive, examine);
    SweepRows(base, FirstOctet, alive, examine);
  }

  /** In a strictly increasing sequence the last element exceeds the first by at
      least the length minus one. */
  lemma {:induction false} IncreasingSpread(s: seq<nat>)
    requires |s| > 0
    requires forall j, k :: 0 <= j < k < |s| ==> s[j] < s[k]
    ensures s[|s| - 1] >= s[0] + |s| - 1
  {
    if |s| > 1 {
      IncreasingSpread(s[..|s| - 1]);
    }
  }

  /** A strictly increasing sequence with a single value in it has at most one element. */
  lemma IncreasingConstantShort(s: seq<nat>, c: nat)
    requires forall j, k :: 0 <= j < k < |s| ==> s[j] < s[k]
    requires forall k :: 0 <= k < |s| ==> s[k] == c
    ensures |s| <= 1
  {
    if |s| > 0 {
      IncreasingSpread(s);
    }
  }

  lemma OnlyCentOsLive()
    ensures LiveOctets(KnownBase, FirstOctet, (ip: string) => ip == CentOsHost) == [40]
  {
    var alive := (ip: string) => ip == CentOsHost;
    CentOsCandidate();
    var octets := LiveOctets(KnownBase, FirstOctet, alive);
    assert forall k :: 0 <= k < |octets| ==> octets[k] == 40;
    assert 40 in octets;
    IncreasingConstantShort(octets, 40);
  }

  lemma CentOsClassified()
    ensures Classify(CentOsHost) == "CentOS 7"
  {
    assert CentOsHost in KnownHosts;
  }

  /** What the loop computes for 192.168.10.40 when the service dates CentOS 7's end
      of life 2015-01-01 and the clock read for that host is in 2016 or later. */
  lemma CentOsExamined(service: string -> string -> Reply, now: string -> DateTime)
    requires service(CentOsHost) == OneRelease("centos", "7", "2015-01-01")
    requires ValidDateTime(now(CentOsHost)) && now(CentOsHost).date.year >= 2016
    ensures Classify(CentOsHost) == "CentOS 7"
    ensures Examine(service, now)(CentOsHost) == Reported(Obsolete, "2015-01-01")
  {
    CentOsClassified();
    Example2015("CentOS 7", now(CentOsHost));
  }

  /** The default configuration, a network where only 192.168.10.40 answers, and a
      service dating CentOS 7's end of life 2015-01-01: when that host is resolved in
      2016 or later, the report has exactly one row, that host, obsolete. Replies and
      clock readings for the other addresses do not matter. */
  lemma SingleObsoleteHost(service: string -> string -> Reply, now: string -> DateTime)
    requires service(CentOsHost) == OneRelease("centos", "7", "2015-01-01")
    requires ValidDateTime(now(CentOsHost)) && now(CentOsHost).date.year >= 2016
    ensures var alive := (ip: string) => ip == CentOsHost;
            SweepFrom(KnownBase, FirstOctet, alive, Examine(service, now)) ==
              Completed([Host(CentOsHost, "CentOS 7", StatusText(Obsolete), "2015-01-01")])
  {
    var alive := (ip: string) => ip == CentOsHost;
    CentOsCandidate();
    CentOsExamined(service, now);
    OnlyCentOsLive();
    SingleLiveCandidate(KnownBase, 40, alive, Examine(service, now));
  }
}
