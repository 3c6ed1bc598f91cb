/** Trying one address after the other until one answers, directly or through a proxy. */
module ApplicationProbe {
  import opened Wrappers
  import opened Evidence
  import opened HttpExchange

  datatype Scheme = Tcp | Http | Https

  /** How a fresh application connection to one address comes out. */
  datatype Outcome =
    | ConnectFails(kind: ErrorKind, error: string)
    | TlsFails(error: string)
    | Exchanges(verdict: ExchangeVerdict, error: string)

  function HttpEvidenceOf(verdict: ExchangeVerdict, error: string): HttpEvidence {
    match verdict
    case Passed(code) => HttpEvidence(Pass, Some(code), None)
    case Warned(code) => HttpEvidence(Warn, Some(code), None)
    case NoAnswer => HttpEvidence(Fail, None, Some(error))
  }

  const CONNECTED: ConnectEvidence := ConnectEvidence(Pass, None, None)

  function ConnectFailure(a: Address, kind: ErrorKind, error: string): ApplicationReport {
    ApplicationReport(Fail, a, ConnectEvidence(Fail, Some(kind), Some(error)), None, None)
  }

  /** The evidence of one attempt; a TLS failure can only come up for HTTPS. */
  function ReportOf(scheme: Scheme, a: Address, o: Outcome): ApplicationReport {
    match o
    case ConnectFails(kind, error) => ConnectFailure(a, kind, error)
    case TlsFails(error) => ApplicationReport(Fail, a, CONNECTED, Some(TlsEvidence(Fail, Some(error))), None)
    case Exchanges(verdict, error) =>
      var http := HttpEvidenceOf(verdict, error);
      ApplicationReport(http.status, a, CONNECTED,
                        if scheme == Https then Some(TlsEvidence(Pass, None)) else None, Some(http))
  }

  /** An attempt ends in a warning exactly when the answer is an error code. */
  lemma WarnsIffErrorCode(scheme: Scheme, a: Address, o: Outcome)
    ensures var report := ReportOf(scheme, a, o);
            report.status == Warn <==>
              report.http.Some? && report.http.value.code.Some? && report.http.value.code.value >= 400
  {
  }

  /** The evidence ends at the layer that failed, and the layers before it have passed. */
  lemma LayersShown(scheme: Scheme, a: Address, o: Outcome)
    ensures var report := ReportOf(scheme, a, o);
            && report.address == a
            && (report.connect == ConnectEvidence(Pass, None, None) <==> !o.ConnectFails?)
            && (o.ConnectFails? ==>
                  report.connect == ConnectEvidence(Fail, Some(o.kind), Some(o.error)) && report.status == Fail)
            && (report.tls.Some? <==> o.TlsFails? || (o.Exchanges? && scheme == Https))
            && (report.tls.Some? ==> (report.tls.value.status == Pass <==> o.Exchanges?))
            && (report.tls.Some? ==> (report.tls.value.status == Fail <==> o.TlsFails?))
            && (report.http.Some? <==> o.Exchanges?)
  {
  }

  // ----- Direct probing ------------------------------------------------------------------

  function PassedOnly(tcp: seq<TcpResult>): seq<TcpResult> {
    if tcp == [] then []
    else (if tcp[0].status == Pass then [tcp[0]] else []) + PassedOnly(tcp[1..])
  }

  lemma {:induction false} PassedExact(tcp: seq<TcpResult>, c: TcpResult)
    ensures c in PassedOnly(tcp) <==> c in tcp && c.status == Pass
  {
    if tcp != [] {
      PassedExact(tcp[1..], c);
      assert tcp == [tcp[0]] + tcp[1..];
    }
  }

  /** Insert before the first slower result, so that equal durations keep their order. */
  function Insert(x: TcpResult, sorted: seq<TcpResult>): seq<TcpResult> {
    if sorted == [] || x.durationMs <= sorted[0].durationMs then [x] + sorted
    else [sorted[0]] + Insert(x, sorted[1..])
  }

  /** The stable sort by connection time. */
  function ByDuration(tcp: seq<TcpResult>): seq<TcpResult> {
    if tcp == [] then [] else Insert(tcp[0], ByDuration(tcp[1..]))
  }

  /** Insertion splits what is there: strictly faster results before, no faster ones after. */
  lemma {:induction false} InsertSplits(x: TcpResult, sorted: seq<TcpResult>) returns (k: nat)
    ensures k <= |sorted| && Insert(x, sorted) == sorted[..k] + [x] + sorted[k..]
    ensures forall i :: 0 <= i < k ==> sorted[i].durationMs < x.durationMs
    ensures k < |sorted| ==> x.durationMs <= sorted[k].durationMs
  {
    if sorted == [] || x.durationMs <= sorted[0].durationMs {
      k := 0;
      assert sorted[..0] + [x] + sorted[0..] == [x] + sorted;
    } else {
      var below := InsertSplits(x, sorted[1..]);
      k := below + 1;
      assert sorted[..k] == [sorted[0]] + sorted[1..][..below] && sorted[k..] == sorted[1..][below..];
    }
  }

  /** `x` stands ahead of `y` among the results. */
  ghost predicate Ahead(tcp: seq<TcpResult>, x: TcpResult, y: TcpResult) {
    exists p, q :: 0 <= p < q < |tcp| && tcp[p] == x && tcp[q] == y
  }

  /** `x` goes before `y`: it connected faster, or as fast and stands ahead. */
  ghost predicate GoesBefore(tcp: seq<TcpResult>, x: TcpResult, y: TcpResult) {
    x.durationMs < y.durationMs || (x.durationMs == y.durationMs && Ahead(tcp, x, y))
  }

  ghost predicate InOrder(tcp: seq<TcpResult>, sorted: seq<TcpResult>) {
    forall i, j :: 0 <= i < j < |sorted| ==> GoesBefore(tcp, sorted[i], sorted[j])
  }

  lemma AheadLonger(t: TcpResult, rest: seq<TcpResult>, x: TcpResult, y: TcpResult)
    requires Ahead(rest, x, y)
    ensures Ahead([t] + rest, x, y)
  {
    var p, q :| 0 <= p < q < |rest| && rest[p] == x && rest[q] == y;
    assert ([t] + rest)[p + 1] == x && ([t] + rest)[q + 1] == y;
  }

  lemma FirstIsAhead(t: TcpResult, rest: seq<TcpResult>, y: TcpResult)
    requires y in rest
    ensures Ahead([t] + rest, t, y)
  {
    var q :| 0 <= q < |rest| && rest[q] == y;
    assert ([t] + rest)[0] == t && ([t] + rest)[q + 1] == y;
  }

  lemma {:induction false} InsertKeepsOrder(x: TcpResult, rest: seq<TcpResult>, sorted: seq<TcpResult>)
    requires InOrder(rest, sorted) && forall c :: c in sorted ==> c in rest
    ensures InOrder([x] + rest, Insert(x, sorted))
  {
    var tcp, inserted := [x] + rest, Insert(x, sorted);
    var k := InsertSplits(x, sorted);
    hide Insert;
    forall i, j | 0 <= i < j < |inserted| ensures GoesBefore(tcp, inserted[i], inserted[j]) {
      if i == k {
        assert k < j - 1 ==> GoesBefore(rest, sorted[k], sorted[j - 1]);
        FirstIsAhead(x, rest, sorted[j - 1]);
      } else if j != k {
        if inserted[i].durationMs == inserted[j].durationMs { AheadLonger(x, rest, inserted[i], inserted[j]); }
      }
    }
  }

  lemma {:induction false} InsertMembers(x: TcpResult, sorted: seq<TcpResult>)
    ensures multiset(Insert(x, sorted)) == multiset{x} + multiset(sorted)
  {
    hide Insert;
    var k := InsertSplits(x, sorted);
    assert sorted == sorted[..k] + sorted[k..];
  }

  /** The sort is a permutation by duration, and stable: equal durations keep their order. */
  lemma {:induction false} ByDurationSorts(tcp: seq<TcpResult>)
    ensures InOrder(tcp, ByDuration(tcp)) && multiset(ByDuration(tcp)) == multiset(tcp)
  {
    hide Insert, InOrder;
    if tcp == [] {
      EmptyInOrder();
    } else {
      var rest := tcp[1..];
      ByDurationSorts(rest);
      forall c | c in ByDuration(rest) ensures c in rest {
        assert c in multiset(ByDuration(rest));
      }
      assert tcp == [tcp[0]] + rest;
      InsertKeepsOrder(tcp[0], rest, ByDuration(rest));
      InsertMembers(tcp[0], ByDuration(rest));
    }
  }

  lemma EmptyInOrder()
    ensures InOrder([], [])
  {
  }

  lemma {:induction false} PassedFirst(tcp: seq<TcpResult>)
    requires tcp != []
    ensures tcp[0].status == Pass ==> PassedOnly(tcp) == [tcp[0]] + PassedOnly(tcp[1..])
    ensures tcp[0].status != Pass ==> PassedOnly(tcp) == PassedOnly(tcp[1..])
  {
  }

  /** Keeping the passing results keeps their order. */
  lemma {:induction false} PassedInOrder(tcp: seq<TcpResult>, p: nat, q: nat)
    requires p < q < |PassedOnly(tcp)|
    ensures Ahead(tcp, PassedOnly(tcp)[p], PassedOnly(tcp)[q])
  {
    assert tcp != [];
    hide Ahead, PassedOnly;
    var t, rest := tcp[0], tcp[1..];
    assert tcp == [t] + rest;
    PassedFirst(tcp);
    var later := PassedOnly(rest);
    if t.status != Pass {
      PassedInOrder(rest, p, q);
      AheadLonger(t, rest, later[p], later[q]);
    } else if p > 0 {
      PassedInOrder(rest, p - 1, q - 1);
      AheadLonger(t, rest, later[p - 1], later[q - 1]);
    } else {
      PassedExact(rest, later[q - 1]);
      FirstIsAhead(t, rest, later[q - 1]);
    }
  }

  /** Candidates in the order in which they are tried. */
  function Candidates(tcp: seq<TcpResult>): seq<TcpResult> {
    ByDuration(PassedOnly(tcp))
  }

  /** Exactly the passing results are candidates, each before those that are slower or further back. */
  lemma CandidatesExact(tcp: seq<TcpResult>)
    ensures InOrder(tcp, Candidates(tcp))
    ensures forall c :: c in Candidates(tcp) <==> c in tcp && c.status == Pass
  {
    hide ByDuration;
    var passed, candidates := PassedOnly(tcp), Candidates(tcp);
    ByDurationSorts(passed);
    forall c ensures c in candidates <==> c in tcp && c.status == Pass {
      PassedExact(tcp, c);
      assert c in multiset(candidates) <==> c in multiset(passed);
    }
    forall i, j | 0 <= i < j < |candidates| ensures GoesBefore(tcp, candidates[i], candidates[j]) {
      assert GoesBefore(passed, candidates[i], candidates[j]);
      if candidates[i].durationMs == candidates[j].durationMs {
        var p, q :| 0 <= p < q < |passed| && passed[p] == candidates[i] && passed[q] == candidates[j];
        PassedInOrder(tcp, p, q);
      }
    }
  }

  /** All attempts up to and including the first that does not fail. */
  function UpToFirstReachable(reports: seq<ApplicationReport>): seq<ApplicationReport> {
    if reports == [] then []
    else if reports[0].status != Fail then [reports[0]]
    else [reports[0]] + UpToFirstReachable(reports[1..])
  }

  function AllReports(scheme: Scheme, candidates: seq<TcpResult>, outcome: Address -> Outcome)
    : (r: seq<ApplicationReport>)
    ensures |r| == |candidates|
    ensures forall i :: 0 <= i < |r| ==> r[i] == ReportOf(scheme, candidates[i].address, outcome(candidates[i].address))
  {
    seq(|candidates|, i requires 0 <= i < |candidates| =>
      ReportOf(scheme, candidates[i].address, outcome(candidates[i].address)))
  }

  function Attempts(scheme: Scheme, tcp: seq<TcpResult>, outcome: Address -> Outcome): seq<ApplicationReport> {
    if scheme == Tcp then [] else UpToFirstReachable(AllReports(scheme, Candidates(tcp), outcome))
  }

  method Probe(scheme: Scheme, tcp: seq<TcpResult>, outcome: Address -> Outcome)
    returns (attempts: seq<ApplicationReport>)
    ensures attempts == Attempts(scheme, tcp, outcome)
  {
    if scheme == Tcp { return []; }
    var candidates := Candidates(tcp);
    ghost var all := AllReports(scheme, candidates, outcome);
    attempts := [];
    for i := 0 to |candidates|
      invariant UpToFirstReachable(all) == attempts + UpToFirstReachable(all[i..])
    {
      var attempt := ReportOf(scheme, candidates[i].address, outcome(candidates[i].address));
      attempts := attempts + [attempt];
      assert all[i..][1..] == all[i + 1..];
      if attempt.status != Fail {
        return;
      }
    }
  }

  /** Where the attempts stop: every earlier one failed, and only running out of candidates stops on a failure. */
  lemma {:induction false} StopsAtFirstReachable(reports: seq<ApplicationReport>)
    ensures var k := |UpToFirstReachable(reports)|;
            && k <= |reports| && UpToFirstReachable(reports) == reports[..k]
            && (forall i :: 0 <= i < k - 1 ==> reports[i].status == Fail)
            && (k < |reports| ==> k > 0 && reports[k - 1].status != Fail)
            && (reports != [] ==> k > 0)
  {
    if reports != [] && reports[0].status == Fail {
      StopsAtFirstReachable(reports[1..]);
      assert reports == [reports[0]] + reports[1..];
    }
  }

  /** Direct attempts follow the candidates in order; only the last can be non-failing. */
  lemma AttemptsArePrefix(scheme: Scheme, tcp: seq<TcpResult>, outcome: Address -> Outcome)
    requires scheme != Tcp
    ensures var attempts, candidates := Attempts(scheme, tcp, outcome), Candidates(tcp);
            && |attempts| <= |candidates|
            && (forall i :: 0 <= i < |attempts| ==>
                  attempts[i] == ReportOf(scheme, candidates[i].address, outcome(candidates[i].address)))
            && (forall i :: 0 <= i < |attempts| - 1 ==> attempts[i].status == Fail)
            && (|attempts| < |candidates| ==> attempts != [] && attempts[|attempts| - 1].status != Fail)
            && (candidates != [] ==> attempts != [])
  {
    StopsAtFirstReachable(AllReports(scheme, Candidates(tcp), outcome));
  }

  // ----- Probing through a proxy ---------------------------------------------------------

  /** Over a stream that is open already, the application cannot fail to connect. */
  type StreamOutcome = o: Outcome | !o.ConnectFails? witness Exchanges(HttpExchange.NoAnswer, "")

  /** How opening a stream through one proxy address comes out, and what the application finds. */
  datatype ProxyOutcome =
    | OpenFails(openKind: ErrorKind, openError: string, tunnelStatus: Option<nat>)
    | Opens(outcome: StreamOutcome)

  datatype ProxyAttempt = ProxyAttempt(status: Status, address: Address)

  /** A raw TCP target needs no more than the open stream. */
  function ProxiedReport(scheme: Scheme, a: Address, o: ProxyOutcome): ApplicationReport {
    match o
    case OpenFails(kind, error, _) => ConnectFailure(a, kind, error)
    case Opens(outcome) =>
      if scheme == Tcp then ApplicationReport(Pass, a, CONNECTED, None, None) else ReportOf(scheme, a, outcome)
  }

  /** A forward proxy, which sees the request itself, can turn it down with status 407. */
  predicate Rejected(forwards: bool, report: ApplicationReport) {
    forwards && report.http.Some? && report.http.value.code == Some(407)
  }

  predicate Reachable(forwards: bool, report: ApplicationReport) {
    !Rejected(forwards, report) && report.status != Fail
  }

  function ProxyAttemptOf(forwards: bool, a: Address, o: ProxyOutcome, report: ApplicationReport): ProxyAttempt {
    ProxyAttempt(if o.Opens? && !Rejected(forwards, report) then Pass else Fail, a)
  }

  /**
    * The loop over the proxy's addresses. `forwards` holds for an HTTP target behind an HTTP(S)
    * proxy; `outcomes[i]` is what happens at address `i`, if it is tried.
    */
  method ProbeViaProxy(scheme: Scheme, forwards: bool, addresses: seq<Address>, outcomes: seq<ProxyOutcome>)
    returns (applications: seq<ApplicationReport>, proxyAttempts: seq<ProxyAttempt>, transport: Status)
    requires |outcomes| == |addresses|
    ensures |applications| == |proxyAttempts| <= |addresses|
    ensures forall i :: 0 <= i < |applications| ==>
              && applications[i] == ProxiedReport(scheme, addresses[i], outcomes[i])
              && proxyAttempts[i] == ProxyAttemptOf(forwards, addresses[i], outcomes[i], applications[i])
              && (proxyAttempts[i].status == Pass || proxyAttempts[i].status == Fail)
    ensures forall i :: 0 <= i < |applications| - 1 ==> !Reachable(forwards, applications[i])
    ensures |applications| < |addresses| ==>
              applications != [] && Reachable(forwards, applications[|applications| - 1])
    ensures transport == Pass || transport == Fail
    ensures transport == Pass <==> exists i :: 0 <= i < |proxyAttempts| && proxyAttempts[i].status == Pass
  {
    applications, proxyAttempts := [], [];
    var passed := false;
    for i := 0 to |addresses|
      invariant |applications| == |proxyAttempts| == i
      invariant forall j :: 0 <= j < i ==>
                  && applications[j] == ProxiedReport(scheme, addresses[j], outcomes[j])
                  && proxyAttempts[j] == ProxyAttemptOf(forwards, addresses[j], outcomes[j], applications[j])
                  && !Reachable(forwards, applications[j])
      invariant passed <==> exists j :: 0 <= j < i && proxyAttempts[j].status == Pass
    {
      var report := ProxiedReport(scheme, addresses[i], outcomes[i]);
      var attempt := ProxyAttemptOf(forwards, addresses[i], outcomes[i], report);
      proxyAttempts := proxyAttempts + [attempt];
      applications := applications + [report];
      assert proxyAttempts[i] == attempt;
      passed := passed || attempt.status == Pass;
      if Reachable(forwards, report) {
        break;
      }
    }
    transport := if passed then Pass else Fail;
  }
}
