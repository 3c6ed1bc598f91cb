/** Whole runs: from the resolver's answer through every probe to the verdict. */
module Pipeline {
  import opened Wrappers
  import opened Sequences
  import opened Evidence
  import opened DnsFilter
  import opened FanOut
  import opened ApplicationProbe
  import opened Diagnosis
  import opened Verdicts
  import opened DirectRun
  import opened ProxiedRun

  // ----- Name resolution -----------------------------------------------------------------

  /** A literal address needs no lookup; a lookup can answer, fail or time out. */
  datatype Lookup = Literal(address: Address) | Answered(addresses: seq<Address>) | NotResolved(error: string)

  /** The addresses that the probes are to use. */
  function Addresses(lookup: Lookup, ipv4Only: bool, ipv6Only: bool): seq<Address> {
    match lookup
    case Literal(a) => if Selected(a, ipv4Only, ipv6Only) then [a] else []
    case Answered(resolved) => Take(Usable(resolved, ipv4Only, ipv6Only), MAX_ADDRESSES)
    case NotResolved(_) => []
  }

  method Resolve(lookup: Lookup, ipv4Only: bool, ipv6Only: bool) returns (dns: DnsResult, error: Option<string>)
    ensures dns.addresses == Addresses(lookup, ipv4Only, ipv6Only)
    ensures dns.status == (if dns.addresses == [] then Fail else Pass)
    ensures error.Some? <==> dns.status == Fail
    ensures dns.truncated <==> lookup.Answered? && |Usable(lookup.addresses, ipv4Only, ipv6Only)| > 32
    ensures lookup.NotResolved? ==> error == Some(lookup.error)
    ensures lookup.Answered? && dns.status == Fail ==> error == Some("DNS returned no usable addresses")
    ensures lookup.Literal? && dns.status == Fail && lookup.address.ip.V6? ==>
              error == Some("target is IPv6, but the requested address family is IPv4")
    ensures lookup.Literal? && dns.status == Fail && lookup.address.ip.V4? && !ipv4Only ==>
              error == Some("target is IPv4, but the requested address family is IPv6")
  {
    match lookup {
      case Literal(a) =>
        if (ipv4Only && a.ip.V6?) || (ipv6Only && a.ip.V4?) {
          return DnsResult(Fail, [], false),
                 Some(if a.ip.V6? then "target is IPv6, but the requested address family is IPv4"
                      else if ipv4Only then "target is IPv4, but the requested address family is IPv4"
                      else "target is IPv4, but the requested address family is IPv6");
        }
        return DnsResult(Pass, [a], false), None;
      case Answered(resolved) =>
        dns := Resolved(resolved, ipv4Only, ipv6Only);
        NothingResolved(resolved, ipv4Only, ipv6Only);
        error := if dns.status == Fail then Some("DNS returned no usable addresses") else None;
      case NotResolved(text) =>
        return DnsResult(Fail, [], false), Some(text);
    }
  }

  lemma NothingResolved(resolved: seq<Address>, ipv4Only: bool, ipv6Only: bool)
    ensures Take(Usable(resolved, ipv4Only, ipv6Only), MAX_ADDRESSES) == [] <==>
            forall a :: a in resolved ==> !Selected(a, ipv4Only, ipv6Only)
  {
    hide Usable;
    var usable := Usable(resolved, ipv4Only, ipv6Only);
    UsableExact(resolved, ipv4Only, ipv6Only);
    if usable != [] {
      assert usable[0] in usable;
    }
  }

  // ----- A direct run --------------------------------------------------------------------

  /** Fill in the verdict of a fresh report. */
  method Judge(evidence: Report) returns (verdict: Diagnosis.Verdict)
    ensures verdict == Explain(evidence)
  {
    hide Explain;
    var report := new DiagnosticReport(evidence);
    report.ExplainReport();
    verdict := Diagnosis.Verdict(report.overall, report.code, report.cause, report.exitCode);
  }

  /**
    * The evidence of a run without a proxy. What each address would do is left to `connect`, `inspect`
    * (`None` for a route inspection that panics) and `outcome`.
    */
  method GatherDirect(scheme: Scheme, lookup: Lookup, ipv4Only: bool, ipv6Only: bool, bypassed: bool,
                      connect: Address -> Attempt, inspect: Address -> Option<RouteResult>,
                      outcome: Address -> Outcome)
    returns (evidence: Report)
    requires forall a :: inspect(a).Some? ==> inspect(a).value.address == a
    ensures DirectEvidence(evidence, scheme, Addresses(lookup, ipv4Only, ipv6Only), outcome)
    ensures Shows(evidence, Addresses(lookup, ipv4Only, ipv6Only), connect, inspect)
    ensures lookup.NotResolved? ==> evidence.dnsError == Some(lookup.error)
  {
    hide Attempts, Addresses, FailedTask, SkippedRoute, ConnectOutcome;
    var dns, error := Resolve(lookup, ipv4Only, ipv6Only);
    var n := |dns.addresses|;
    var routes := InspectAll(dns.addresses, seq(n, i requires 0 <= i < n => inspect(dns.addresses[i])));
    var tcp := ConnectAll(dns.addresses, seq(n, i requires 0 <= i < n => connect(dns.addresses[i])));
    var attempts := Probe(scheme, tcp, outcome);
    evidence := Report(!bypassed, bypassed, Skip, None, dns.status, error, routes, tcp, attempts);
  }

  lemma AddressesDistinct(lookup: Lookup, ipv4Only: bool, ipv6Only: bool)
    ensures Distinct(Addresses(lookup, ipv4Only, ipv6Only))
  {
    hide Usable;
    match lookup
    case Answered(resolved) => UsableExact(resolved, ipv4Only, ipv6Only);
    case _ =>
  }

  /**
    * A run without a proxy. The verdict is the one that the resolved addresses warrant; it is a failure exactly
    * when none of them works.
    */
  method DiagnoseDirect(scheme: Scheme, lookup: Lookup, ipv4Only: bool, ipv6Only: bool, bypassed: bool,
                        connect: Address -> Attempt, inspect: Address -> Option<RouteResult>,
                        outcome: Address -> Outcome)
    returns (evidence: Report, verdict: Diagnosis.Verdict)
    requires forall a :: inspect(a).Some? ==> inspect(a).value.address == a
    ensures DirectEvidence(evidence, scheme, Addresses(lookup, ipv4Only, ipv6Only), outcome)
    ensures verdict == Explain(evidence)
    ensures Warranted(verdict, scheme, Addresses(lookup, ipv4Only, ipv6Only), connect, inspect, outcome)
    ensures verdict.overall == Fail <==>
            forall a :: a in Addresses(lookup, ipv4Only, ipv6Only) ==> !Works(scheme, a, connect, outcome)
    ensures lookup.NotResolved? ==> verdict.cause == Observed(lookup.error)
    ensures verdict.exitCode == (if verdict.overall == Fail then 1 else 0) && Fits(verdict.overall, verdict.code)
  {
    hide Attempts, EveryCandidateFails, Fits, Addresses, Works, ShowsRoute;
    evidence := GatherDirect(scheme, lookup, ipv4Only, ipv6Only, bypassed, connect, inspect, outcome);
    verdict := Judge(evidence);
    var addresses := Addresses(lookup, ipv4Only, ipv6Only);
    NotResolvedIsObserved(evidence, scheme, lookup, ipv4Only, ipv6Only, outcome);
    hide Explain;
    AddressesDistinct(lookup, ipv4Only, ipv6Only);
    AddressesDecide(evidence, scheme, addresses, connect, inspect, outcome);
    hide Warranted;
    DirectRunFailsIff(evidence, scheme, addresses, outcome);
    WorkingCandidates(scheme, addresses, evidence.tcp, connect, outcome);
    CodeFitsStatus(evidence);
  }

  lemma NotResolvedIsObserved(r: Report, scheme: Scheme, lookup: Lookup, ipv4Only: bool, ipv6Only: bool,
                              outcome: Address -> Outcome)
    requires DirectEvidence(r, scheme, Addresses(lookup, ipv4Only, ipv6Only), outcome)
    requires lookup.NotResolved? ==> r.dnsError == Some(lookup.error)
    ensures lookup.NotResolved? ==> Explain(r).cause == Observed(lookup.error)
  {
  }

  // ----- A run through a proxy -----------------------------------------------------------

  /** A run through a proxy, for any evidence about the direct path: the proxy's addresses warrant the verdict. */
  method DiagnoseViaProxy(scheme: Scheme, forwards: bool, addresses: seq<Address>,
                          outcomes: seq<ProxyOutcome>, gathered: Report)
    returns (evidence: Report, verdict: Diagnosis.Verdict)
    requires |outcomes| == |addresses| && !gathered.direct && !gathered.bypassed
    ensures evidence == gathered.(attempts := evidence.attempts, proxyStatus := evidence.proxyStatus)
    ensures ProxyEvidence(evidence, scheme, forwards, addresses, outcomes)
    ensures verdict == Explain(evidence)
    ensures WarrantedByProxy(verdict, scheme, forwards, addresses, outcomes, gathered.proxyError)
    ensures verdict.overall == Fail <==>
            !SomeLetThrough(scheme, forwards, outcomes) || NobodyAnswers(scheme, outcomes)
    ensures verdict.exitCode == (if verdict.overall == Fail then 1 else 0) && Fits(verdict.overall, verdict.code)
  {
    hide Explain, ProxiedReport, LetThrough, Reachable, Rejected, ProxyAttemptOf, WarrantedByProxy, Fits;
    hide SomeLetThrough, NobodyAnswers;
    var attempts, proxyAttempts, transport := ProbeViaProxy(scheme, forwards, addresses, outcomes);
    forall i | 0 <= i < |attempts|
      ensures proxyAttempts[i].status == Pass <==> LetThrough(scheme, forwards, outcomes[i])
    {
      ProxiedReportShows(scheme, forwards, addresses[i], outcomes[i]);
    }
    evidence := gathered.(attempts := attempts, proxyStatus := transport);
    verdict := Judge(evidence);
    ProxyAddressesDecide(evidence, scheme, forwards, addresses, outcomes);
    ProxiedRunFailsIff(evidence, scheme, forwards, addresses, outcomes);
    CodeFitsStatus(evidence);
  }
}
