/** What a verdict says about the evidence, and how little it depends on the order of the evidence. */
module Verdicts {
  import opened Wrappers
  import opened Evidence
  import opened Diagnosis
  import opened ApplicationProbe

  // ----- Cross-field rules, for any evidence whatever ------------------------------------

  predicate Fits(overall: Status, code: Code) {
    match overall
    case Pass => code == ConnectivityOk
    case Warn => code == AddressFamilyPartial || code == ApplicationAddressPartial || code == HttpErrorStatus
    case Fail =>
      && code != ConnectivityOk && code != AddressFamilyPartial
      && code != ApplicationAddressPartial && code != HttpErrorStatus
    case Skip => false
  }

  lemma CodeFitsStatus(r: Report)
    ensures var v := Explain(r);
            && Fits(v.overall, v.code)
            && (v.exitCode == 1 <==> v.overall == Fail) && (v.exitCode == 0 <==> v.overall != Fail)
  {
  }

  predicate EveryKind(tcp: seq<TcpResult>, kind: ErrorKind) {
    forall t :: t in tcp ==> t.errorKind == Some(kind)
  }

  predicate EveryUnreachable(tcp: seq<TcpResult>) {
    forall t :: t in tcp ==> t.errorKind == Some(NetworkUnreachable) || t.errorKind == Some(HostUnreachable)
  }

  /**
    * What the code says when no address accepted TCP. A missing route is concluded from the
    * attempts or from the routes: either is enough, but a refusal everywhere outweighs both.
    */
  lemma TcpFailureCodes(r: Report)
    requires (r.direct || r.bypassed) && r.dnsStatus != Fail && r.tcp != [] && !AnyTcpPassed(r.tcp)
    ensures var code, noRoutes := Explain(r).code, AllRoutesMissing(r.routes);
            && (code == TcpConnectionRefused <==> EveryKind(r.tcp, ConnectionRefused))
            && (code == NoUsableRoute <==>
                  EveryUnreachable(r.tcp) || (noRoutes && !EveryKind(r.tcp, ConnectionRefused)))
            && (code == TcpTimeout <==> EveryKind(r.tcp, TimedOut) && !noRoutes)
            && (code == TcpConnectFailed <==>
                  && !noRoutes && !EveryUnreachable(r.tcp)
                  && !EveryKind(r.tcp, ConnectionRefused) && !EveryKind(r.tcp, TimedOut))
  {
    hide AllRoutesMissing;
    assert r.tcp[0] in r.tcp;
  }

  // ----- Direct mode, for the evidence that the pipeline produces -------------------------

  /** The evidence of a direct run: DNS, then TCP probes of its addresses, then application probes. */
  predicate DirectEvidence(r: Report, scheme: Scheme, addresses: seq<Address>, outcome: Address -> Outcome) {
    && (r.direct || r.bypassed)
    && (r.dnsStatus == Pass || r.dnsStatus == Fail)
    && (r.dnsStatus == Fail <==> addresses == [])
    && |r.tcp| == |addresses|
    && (forall i :: 0 <= i < |r.tcp| ==>
          && r.tcp[i].address == addresses[i] && r.tcp[i].family == FamilyOf(addresses[i])
          && (r.tcp[i].status == Pass || r.tcp[i].status == Fail))
    && r.attempts == Attempts(scheme, r.tcp, outcome)
  }

  /** Every address that accepted a TCP connection fails the application probe. */
  predicate EveryCandidateFails(scheme: Scheme, tcp: seq<TcpResult>, outcome: Address -> Outcome) {
    forall c :: c in tcp && c.status == Pass ==> ReportOf(scheme, c.address, outcome(c.address)).status == Fail
  }

  lemma FailedAttemptsCoverCandidates(scheme: Scheme, tcp: seq<TcpResult>, outcome: Address -> Outcome, c: TcpResult)
    requires scheme != Tcp && AllFailed(Attempts(scheme, tcp, outcome))
    requires c in tcp && c.status == Pass
    ensures ReportOf(scheme, c.address, outcome(c.address)).status == Fail
  {
    hide Attempts, Candidates, ReportOf;
    var attempts, candidates := Attempts(scheme, tcp, outcome), Candidates(tcp);
    AttemptsArePrefix(scheme, tcp, outcome);
    CandidatesExact(tcp);
    assert attempts[|attempts| - 1] in attempts;
    var i :| 0 <= i < |candidates| && candidates[i] == c;
    assert attempts[i] in attempts;
  }

  lemma FailingCandidatesFailAttempts(scheme: Scheme, tcp: seq<TcpResult>, outcome: Address -> Outcome)
    requires scheme != Tcp && AnyTcpPassed(tcp) && EveryCandidateFails(scheme, tcp, outcome)
    ensures AllFailed(Attempts(scheme, tcp, outcome))
  {
    hide Attempts, Candidates, ReportOf;
    var attempts, candidates := Attempts(scheme, tcp, outcome), Candidates(tcp);
    AttemptsArePrefix(scheme, tcp, outcome);
    CandidatesExact(tcp);
    var p :| p in tcp && p.status == Pass;
    assert p in candidates;
    forall a | a in attempts ensures a.status == Fail {
      var i :| 0 <= i < |attempts| && attempts[i] == a;
      assert candidates[i] in candidates;
    }
  }

  lemma AllAttemptsFailedIff(scheme: Scheme, tcp: seq<TcpResult>, outcome: Address -> Outcome)
    requires AnyTcpPassed(tcp)
    ensures AllFailed(Attempts(scheme, tcp, outcome)) <==> scheme != Tcp && EveryCandidateFails(scheme, tcp, outcome)
  {
    hide ReportOf;
    if scheme != Tcp {
      if AllFailed(Attempts(scheme, tcp, outcome)) {
        forall c | c in tcp && c.status == Pass ensures ReportOf(scheme, c.address, outcome(c.address)).status == Fail {
          FailedAttemptsCoverCandidates(scheme, tcp, outcome, c);
        }
      }
      if EveryCandidateFails(scheme, tcp, outcome) {
        FailingCandidatesFailAttempts(scheme, tcp, outcome);
      }
    }
  }

  /**
    * A direct run fails exactly when DNS failed, no address accepted a TCP connection, or every
    * address that did fails the HTTP or HTTPS probe.
    */
  lemma DirectRunFailsIff(r: Report, scheme: Scheme, addresses: seq<Address>, outcome: Address -> Outcome)
    requires DirectEvidence(r, scheme, addresses, outcome)
    ensures Explain(r).overall == Fail <==>
            || r.dnsStatus == Fail
            || !AnyTcpPassed(r.tcp)
            || (scheme != Tcp && EveryCandidateFails(scheme, r.tcp, outcome))
  {
    if AnyTcpPassed(r.tcp) {
      AllAttemptsFailedIff(scheme, r.tcp, outcome);
    }
  }

  /** What a probe leaves behind: a failed attempt failed at a layer that the evidence names. */
  predicate FailureIsLocated(a: ApplicationReport) {
    a.status == Fail ==> a.connect.status == Fail || TlsFailed(a) || HttpFailed(a)
  }

  /** The stage that the classifier gives is one that the attempts show. */
  predicate Grounded(attempts: seq<ApplicationReport>)
    requires AllFailed(attempts)
  {
    match Classify(attempts).value.stage
    case ConnectStage => AllConnectsFailed(attempts)
    case TlsStage =>
      (exists a :: a in attempts && TlsFailed(a)) && (forall a :: a in attempts ==> !HttpFailed(a))
    case HttpStage => exists a :: a in attempts && HttpFailed(a)
  }

  lemma LocatedIsGrounded(attempts: seq<ApplicationReport>)
    requires AllFailed(attempts) && forall a :: a in attempts ==> FailureIsLocated(a)
    ensures Grounded(attempts)
  {
    if !AllConnectsFailed(attempts) {
      var a :| a in attempts && a.connect.status != Fail;
      assert FailureIsLocated(a);
    }
  }

  /** The classifier's last resort is never reached on evidence of direct probes. */
  lemma ClassificationIsGrounded(scheme: Scheme, tcp: seq<TcpResult>, outcome: Address -> Outcome)
    requires AllFailed(Attempts(scheme, tcp, outcome))
    ensures Grounded(Attempts(scheme, tcp, outcome))
  {
    hide Grounded;
    var attempts := Attempts(scheme, tcp, outcome);
    AttemptsArePrefix(scheme, tcp, outcome);
    forall a | a in attempts ensures FailureIsLocated(a) {
      var i :| 0 <= i < |attempts| && attempts[i] == a;
    }
    LocatedIsGrounded(attempts);
  }

  // ----- Order independence --------------------------------------------------------------

  /** The same evidence, gathered in another order. */
  predicate Reordered(r: Report, s: Report) {
    && s == r.(routes := s.routes, tcp := s.tcp, attempts := s.attempts)
    && multiset(s.routes) == multiset(r.routes)
    && multiset(s.tcp) == multiset(r.tcp)
    && multiset(s.attempts) == multiset(r.attempts)
  }

  lemma SameMembers<T>(a: seq<T>, b: seq<T>)
    requires multiset(a) == multiset(b)
    ensures |a| == |b| && forall x :: x in a <==> x in b
  {
    assert |multiset(a)| == |multiset(b)|;
    forall x ensures x in a <==> x in b {
      assert x in multiset(a) <==> x in multiset(b);
    }
  }

  ghost predicate DistinctAddresses(attempts: seq<ApplicationReport>) {
    forall a, b :: a in attempts && b in attempts && a.address == b.address ==> a == b
  }

  lemma BeforeTotal(a: Address, b: Address)
    ensures a == b || Before(a, b) || Before(b, a)
  {
  }

  lemma {:induction false} LeastIsTheSame(stage: Stage, a: seq<ApplicationReport>, b: seq<ApplicationReport>)
    requires multiset(a) == multiset(b) && DistinctAddresses(a)
    ensures LeastAt(stage, a) == LeastAt(stage, b)
  {
    SameMembers(a, b);
    var x, y := LeastAt(stage, a), LeastAt(stage, b);
    if x.Some? {
      assert AtStage(stage, x.value) && x.value in b;
      assert y.Some?;
      BeforeTotal(x.value.address, y.value.address);
    }
  }

  /** The failing stage does not depend on the order of the attempts, nor, for distinct addresses, the cause. */
  lemma ClassificationIgnoresOrder(a: seq<ApplicationReport>, b: seq<ApplicationReport>)
    requires multiset(a) == multiset(b)
    ensures Classify(a).Some? == Classify(b).Some?
    ensures Classify(a).Some? ==> Classify(a).value.stage == Classify(b).value.stage
    ensures DistinctAddresses(a) ==> Classify(a) == Classify(b)
  {
    SameMembers(a, b);
    if DistinctAddresses(a) {
      LeastIsTheSame(ConnectStage, a, b);
      LeastIsTheSame(TlsStage, a, b);
      LeastIsTheSame(HttpStage, a, b);
    }
  }

  /** The verdict is decided by what the first non-failing attempt answered. */
  predicate DecidedByAnswer(r: Report) {
    && !AllFailed(r.attempts)
    && if !r.direct && !r.bypassed then
         !(r.proxyStatus == Fail && (AuthenticationDemanded(r.attempts) || r.attempts == []))
       else r.dnsStatus != Fail && AnyTcpPassed(r.tcp)
  }

  /** All attempts that did not fail answered alike: all with an error code or none. */
  predicate AnswersAgree(attempts: seq<ApplicationReport>) {
    forall a, b :: a in attempts && b in attempts && a.status != Fail && b.status != Fail ==>
      AnswersWithError(a) == AnswersWithError(b)
  }

  lemma {:induction false} HttpErrorCodeIs(attempts: seq<ApplicationReport>)
    requires AnswersAgree(attempts)
    ensures HttpErrorCode(attempts).Some? <==> exists a :: a in attempts && a.status != Fail && AnswersWithError(a)
  {
    if attempts != [] && attempts[0].status == Fail {
      assert forall a :: a in attempts[1..] ==> a in attempts;
      HttpErrorCodeIs(attempts[1..]);
      assert forall a :: a in attempts && a.status != Fail ==> a in attempts[1..];
    }
  }

  predicate SameDecision(v: Verdict, w: Verdict) {
    v.overall == w.overall && v.code == w.code && v.exitCode == w.exitCode
  }

  lemma TcpTestsIgnoreOrder(r: Report, s: Report)
    requires Reordered(r, s)
    ensures AnyTcpPassed(r.tcp) == AnyTcpPassed(s.tcp) && FamiliesAsymmetric(r.tcp) == FamiliesAsymmetric(s.tcp)
    ensures SameDecision(TcpFailureVerdict(r), TcpFailureVerdict(s))
  {
    SameMembers(r.tcp, s.tcp);
    SameMembers(r.routes, s.routes);
  }

  /** Status, code and exit code are the same in every order of the evidence, if the answers agree. */
  lemma DecisionIgnoresOrder(r: Report, s: Report)
    requires Reordered(r, s) && (DecidedByAnswer(r) ==> AnswersAgree(r.attempts))
    ensures SameDecision(Explain(r), Explain(s))
  {
    hide TcpFailureVerdict, FamiliesAsymmetric, Classify;
    TcpTestsIgnoreOrder(r, s);
    SameMembers(r.attempts, s.attempts);
    ClassificationIgnoresOrder(r.attempts, s.attempts);
    if DecidedByAnswer(r) {
      HttpErrorCodeIs(r.attempts);
      HttpErrorCodeIs(s.attempts);
    }
  }

  lemma AnswerDecides(r: Report)
    requires DecidedByAnswer(r)
    ensures Explain(r).code == HttpErrorStatus <==> HttpErrorCode(r.attempts).Some?
  {
  }

  lemma MoveToFront(attempts: seq<ApplicationReport>, first: ApplicationReport) returns (moved: seq<ApplicationReport>)
    requires first in attempts
    ensures multiset(moved) == multiset(attempts) && moved != [] && moved[0] == first
  {
    var i :| 0 <= i < |attempts| && attempts[i] == first;
    moved := [first] + (attempts[..i] + attempts[i + 1..]);
    assert attempts == attempts[..i] + ([first] + attempts[i + 1..]);
  }

  /** Otherwise some order of the very same attempts is judged differently. */
  lemma DecisionDependsOnOrder(r: Report) returns (s: Report)
    requires DecidedByAnswer(r) && !AnswersAgree(r.attempts)
    ensures Reordered(r, s) && !SameDecision(Explain(r), Explain(s))
  {
    hide Explain, AnswersWithError;
    var a, b :| a in r.attempts && b in r.attempts && a.status != Fail && b.status != Fail
                && AnswersWithError(a) != AnswersWithError(b);
    var first := if AnswersWithError(a) == HttpErrorCode(r.attempts).Some? then b else a;
    var attempts := MoveToFront(r.attempts, first);
    s := r.(attempts := attempts);
    SameMembers(r.attempts, attempts);
    AnswerDecides(r);
    AnswerDecides(s);
    FirstAnswerDecides(attempts);
  }

  lemma {:induction false} FirstAnswerDecides(attempts: seq<ApplicationReport>)
    requires attempts != [] && attempts[0].status != Fail
    ensures HttpErrorCode(attempts).Some? == AnswersWithError(attempts[0])
  {
  }

  lemma OneAnswerAgrees(attempts: seq<ApplicationReport>)
    requires forall i :: 0 <= i < |attempts| - 1 ==> attempts[i].status == Fail
    ensures AnswersAgree(attempts)
  {
    hide AnswersWithError;
    forall a | a in attempts && a.status != Fail ensures a == attempts[|attempts| - 1] {
      var i :| 0 <= i < |attempts| && attempts[i] == a;
    }
  }

  /** In direct mode at most the last attempt did not fail, so the order never matters. */
  lemma DirectAnswersAgree(scheme: Scheme, tcp: seq<TcpResult>, outcome: Address -> Outcome)
    ensures AnswersAgree(Attempts(scheme, tcp, outcome))
  {
    if scheme != Tcp {
      AttemptsArePrefix(scheme, tcp, outcome);
      OneAnswerAgrees(Attempts(scheme, tcp, outcome));
    }
  }

  // ----- Proxy mode ----------------------------------------------------------------------

  /**
    * A forward proxy that turns the first address down and serves the second: the request went
    * through, and the report still warns about the 407, because the first answer decides.
    */
  lemma RejectedFirstAddressDecides(a: Address, b: Address, r: Report)
    requires !r.direct && !r.bypassed && r.proxyStatus == Pass
    requires r.attempts == [ReportOf(Http, a, Exchanges(HttpExchange.Warned(407), "")),
                            ReportOf(Http, b, Exchanges(HttpExchange.Passed(200), ""))]
    ensures Rejected(true, r.attempts[0]) && Reachable(true, r.attempts[1])
    ensures Explain(r).overall == Warn && Explain(r).code == HttpErrorStatus
    ensures DecidedByAnswer(r) && !AnswersAgree(r.attempts)
  {
    var first, second := r.attempts[0], r.attempts[1];
    assert first in r.attempts && second in r.attempts;
    assert AnswersWithError(first) && !AnswersWithError(second);
  }
}
