/** What a run through a proxy concludes, from what would happen at each address of the proxy. */
module ProxiedRun {
  import opened Wrappers
  import opened Evidence
  import opened ApplicationProbe
  import opened Diagnosis
  import opened Verdicts
  import opened DirectRun

  // ----- What happens at one address -----------------------------------------------------

  /** The stream opens, and a forward proxy turns the request down. */
  predicate TurnedDown(scheme: Scheme, forwards: bool, o: ProxyOutcome) {
    forwards && scheme != Tcp && o.Opens? && o.outcome.Exchanges? && o.outcome.verdict == HttpExchange.Warned(407)
  }

  /** The stream opens and the proxy does not turn the request down. */
  predicate LetThrough(scheme: Scheme, forwards: bool, o: ProxyOutcome) {
    o.Opens? && !TurnedDown(scheme, forwards, o)
  }

  /** The stream opens and, beyond a raw TCP target, somebody answers, be it the proxy itself. */
  predicate Answered(scheme: Scheme, o: ProxyOutcome) {
    o.Opens? && (scheme == Tcp || Answers(o.outcome))
  }

  predicate AnsweredWithError(scheme: Scheme, o: ProxyOutcome) {
    scheme != Tcp && Answered(scheme, o) && o.outcome.verdict.Warned?
  }

  ghost predicate SomeRejected(scheme: Scheme, forwards: bool, outcomes: seq<ProxyOutcome>) {
    exists o :: o in outcomes && TurnedDown(scheme, forwards, o)
  }

  ghost predicate SomeLetThrough(scheme: Scheme, forwards: bool, outcomes: seq<ProxyOutcome>) {
    exists o :: o in outcomes && LetThrough(scheme, forwards, o)
  }

  /** The evidence of one attempt shows what came of it. */
  lemma ProxiedReportShows(scheme: Scheme, forwards: bool, a: Address, o: ProxyOutcome)
    ensures var report := ProxiedReport(scheme, a, o);
            && (report.status == Fail <==> !Answered(scheme, o))
            && (Rejected(forwards, report) <==> TurnedDown(scheme, forwards, o))
            && (Reachable(forwards, report) <==> Answered(scheme, o) && LetThrough(scheme, forwards, o))
            && (AnswersWithError(report) <==> AnsweredWithError(scheme, o))
            && (o.OpenFails? ==> report.http.None? && report.connect == ConnectEvidence(Fail, Some(o.openKind),
                                                                                       Some(o.openError)))
            && (ProxyAttemptOf(forwards, a, o, report).status == Pass <==> LetThrough(scheme, forwards, o))
  {
  }

  /** How far an attempt without an answer got. */
  predicate StopsAt(stage: Stage, o: ProxyOutcome) {
    match stage
    case ConnectStage => o.OpenFails?
    case _ => o.Opens? && FailsAt(stage, o.outcome)
  }

  lemma ProxiedFailureShown(scheme: Scheme, a: Address, o: ProxyOutcome)
    requires !Answered(scheme, o)
    ensures var report := ProxiedReport(scheme, a, o);
            && report.address == a && (report.connect.status == Fail <==> StopsAt(ConnectStage, o))
            && (TlsFailed(report) <==> StopsAt(TlsStage, o)) && (HttpFailed(report) <==> StopsAt(HttpStage, o))
            && (StopsAt(TlsStage, o) ==> report.tls.value.error == Some(o.outcome.error))
            && (StopsAt(HttpStage, o) ==> report.http.value.error == Some(o.outcome.error))
  {
  }

  // ----- The evidence of the loop --------------------------------------------------------

  /** The attempts follow the addresses and stop after the first that is reachable. */
  ghost predicate ProxyEvidence(r: Report, scheme: Scheme, forwards: bool, addresses: seq<Address>,
                                outcomes: seq<ProxyOutcome>)
    requires |outcomes| == |addresses|
  {
    && !r.direct && !r.bypassed
    && |r.attempts| <= |addresses|
    && (forall i :: 0 <= i < |r.attempts| ==> r.attempts[i] == ProxiedReport(scheme, addresses[i], outcomes[i]))
    && (|r.attempts| < |addresses| ==> r.attempts != [] && Reachable(forwards, r.attempts[|r.attempts| - 1]))
    && (r.proxyStatus != Fail <==> exists i :: 0 <= i < |r.attempts| && LetThrough(scheme, forwards, outcomes[i]))
  }

  /** What the attempts show, and that only a reachable address leaves later ones untried. */
  lemma AttemptsShow(r: Report, scheme: Scheme, forwards: bool, addresses: seq<Address>, outcomes: seq<ProxyOutcome>)
    requires |outcomes| == |addresses| && ProxyEvidence(r, scheme, forwards, addresses, outcomes)
    ensures forall i :: 0 <= i < |r.attempts| ==>
              && r.attempts[i] in r.attempts && outcomes[i] in outcomes
              && (r.attempts[i].status == Fail <==> !Answered(scheme, outcomes[i]))
              && (Rejected(forwards, r.attempts[i]) <==> TurnedDown(scheme, forwards, outcomes[i]))
              && (AnswersWithError(r.attempts[i]) <==> AnsweredWithError(scheme, outcomes[i]))
    ensures |r.attempts| < |addresses| ==>
              var last := outcomes[|r.attempts| - 1]; Answered(scheme, last) && LetThrough(scheme, forwards, last)
  {
    hide ProxiedReport, Rejected, Reachable, TurnedDown, LetThrough, Answered, AnswersWithError, AnsweredWithError;
    forall i | 0 <= i < |r.attempts|
      ensures r.attempts[i] in r.attempts && outcomes[i] in outcomes
      ensures r.attempts[i].status == Fail <==> !Answered(scheme, outcomes[i])
      ensures Rejected(forwards, r.attempts[i]) <==> TurnedDown(scheme, forwards, outcomes[i])
      ensures AnswersWithError(r.attempts[i]) <==> AnsweredWithError(scheme, outcomes[i])
      ensures Reachable(forwards, r.attempts[i]) <==>
              Answered(scheme, outcomes[i]) && LetThrough(scheme, forwards, outcomes[i])
    {
      ProxiedReportShows(scheme, forwards, addresses[i], outcomes[i]);
    }
  }

  /** The transport counts as passed exactly when the proxy let the request through at some address. */
  lemma TransportShows(r: Report, scheme: Scheme, forwards: bool, addresses: seq<Address>, outcomes: seq<ProxyOutcome>)
    requires |outcomes| == |addresses| && ProxyEvidence(r, scheme, forwards, addresses, outcomes)
    ensures r.proxyStatus != Fail <==> SomeLetThrough(scheme, forwards, outcomes)
  {
    hide ProxiedReport, Reachable, LetThrough, Answered;
    AttemptsShow(r, scheme, forwards, addresses, outcomes);
    if o :| o in outcomes && LetThrough(scheme, forwards, o) {
      var i :| 0 <= i < |outcomes| && outcomes[i] == o;
      var k := if i < |r.attempts| then i else |r.attempts| - 1;
      assert LetThrough(scheme, forwards, outcomes[k]);
    }
  }

  // ----- Nobody lets the request through -------------------------------------------------

  lemma UnopenedIsNamed(r: Report, scheme: Scheme, addresses: seq<Address>, outcomes: seq<ProxyOutcome>)
    requires |outcomes| == |addresses| == |r.attempts| && !r.direct && !r.bypassed && r.proxyStatus == Fail
    requires forall i :: 0 <= i < |addresses| ==> r.attempts[i] == ProxiedReport(scheme, addresses[i], outcomes[i])
    requires forall i :: 0 <= i < |addresses| ==> outcomes[i].OpenFails?
    ensures Explain(r).code == ProxyConnectionFailed
    ensures outcomes != [] ==> Explain(r).cause == Observed(outcomes[0].openError)
    ensures outcomes == [] ==>
              Explain(r).cause == if r.proxyError.Some? then Observed(r.proxyError.value) else NoCause
  {
    hide Classify, HttpErrorCode;
    forall i | 0 <= i < |addresses|
      ensures r.attempts[i].http.None? && r.attempts[i].status == Fail && r.attempts[i].connect.status == Fail
    {
    }
    if r.attempts != [] {
      assert r.attempts[0] in r.attempts;
    }
  }

  lemma NobodyLetThrough(r: Report, scheme: Scheme, forwards: bool, addresses: seq<Address>,
                         outcomes: seq<ProxyOutcome>)
    requires |outcomes| == |addresses| && ProxyEvidence(r, scheme, forwards, addresses, outcomes)
    requires !SomeLetThrough(scheme, forwards, outcomes)
    ensures r.proxyStatus == Fail && |r.attempts| == |addresses|
    ensures forall i :: 0 <= i < |addresses| ==> outcomes[i].OpenFails? || TurnedDown(scheme, forwards, outcomes[i])
  {
    hide ProxiedReport, Reachable, Answered, TurnedDown;
    AttemptsShow(r, scheme, forwards, addresses, outcomes);
    TransportShows(r, scheme, forwards, addresses, outcomes);
    forall i | 0 <= i < |addresses| ensures !LetThrough(scheme, forwards, outcomes[i]) {
      assert outcomes[i] in outcomes;
    }
  }

  lemma DemandIsNamed(r: Report, scheme: Scheme, forwards: bool, addresses: seq<Address>,
                      outcomes: seq<ProxyOutcome>, i: nat)
    requires |outcomes| == |addresses| && ProxyEvidence(r, scheme, forwards, addresses, outcomes)
    requires r.proxyStatus == Fail && i < |r.attempts| && TurnedDown(scheme, forwards, outcomes[i])
    ensures Explain(r).code == ProxyConnectionFailed && Explain(r).cause == Stock
  {
    hide Reachable, Classify, HttpErrorCode, LetThrough;
    assert r.attempts[i] in r.attempts;
    assert r.attempts[i].http.value.code == Some(407);
  }

  /** Then the proxy is named, with the demand for credentials or the first error of opening a stream. */
  lemma ProxyIsNamed(r: Report, scheme: Scheme, forwards: bool, addresses: seq<Address>, outcomes: seq<ProxyOutcome>)
    requires |outcomes| == |addresses| && ProxyEvidence(r, scheme, forwards, addresses, outcomes)
    requires !SomeLetThrough(scheme, forwards, outcomes)
    ensures Explain(r).code == ProxyConnectionFailed
    ensures SomeRejected(scheme, forwards, outcomes) ==> Explain(r).cause == Stock
    ensures outcomes != [] && !SomeRejected(scheme, forwards, outcomes) ==>
              outcomes[0].OpenFails? && Explain(r).cause == Observed(outcomes[0].openError)
    ensures outcomes == [] ==>
              Explain(r).cause == if r.proxyError.Some? then Observed(r.proxyError.value) else NoCause
  {
    hide Explain, ProxiedReport, Reachable, LetThrough, TurnedDown;
    NobodyLetThrough(r, scheme, forwards, addresses, outcomes);
    if o :| o in outcomes && TurnedDown(scheme, forwards, o) {
      var i :| 0 <= i < |outcomes| && outcomes[i] == o;
      DemandIsNamed(r, scheme, forwards, addresses, outcomes, i);
    } else {
      UnopenedIsNamed(r, scheme, addresses, outcomes);
    }
  }

  // ----- Somebody answers ----------------------------------------------------------------

  /** Address `k` is the first of the proxy at which somebody answers. */
  predicate FirstAnswered(scheme: Scheme, outcomes: seq<ProxyOutcome>, k: nat) {
    k < |outcomes| && Answered(scheme, outcomes[k]) && forall j :: 0 <= j < k ==> !Answered(scheme, outcomes[j])
  }

  lemma FirstAnsweredExists(scheme: Scheme, outcomes: seq<ProxyOutcome>, o: ProxyOutcome) returns (k: nat)
    requires o in outcomes && Answered(scheme, o)
    ensures FirstAnswered(scheme, outcomes, k)
  {
    k := 0;
    while !Answered(scheme, outcomes[k])
      invariant k < |outcomes| && forall j :: 0 <= j < k ==> !Answered(scheme, outcomes[j])
      invariant exists i :: k <= i < |outcomes| && outcomes[i] == o
      decreases |outcomes| - k
    {
      k := k + 1;
    }
  }

  /** If the request got through anywhere, the first answer decides: a warning for an error code, else a pass. */
  lemma FirstAnswerDecidesProxied(r: Report, scheme: Scheme, forwards: bool, addresses: seq<Address>,
                                  outcomes: seq<ProxyOutcome>, k: nat)
    requires |outcomes| == |addresses| && ProxyEvidence(r, scheme, forwards, addresses, outcomes)
    requires SomeLetThrough(scheme, forwards, outcomes) && FirstAnswered(scheme, outcomes, k)
    ensures Explain(r).code == if AnsweredWithError(scheme, outcomes[k]) then HttpErrorStatus else ConnectivityOk
  {
    hide ProxiedReport, LetThrough, Answered, AnsweredWithError, AnswersWithError, Reachable, Rejected, Classify;
    hide HttpErrorCode, FirstAnswerIsError;
    AttemptsShow(r, scheme, forwards, addresses, outcomes);
    TransportShows(r, scheme, forwards, addresses, outcomes);
    FirstIsTried(r, scheme, forwards, addresses, outcomes, k);
    HttpErrorCodeMeaning(r.attempts);
  }

  lemma FirstIsTried(r: Report, scheme: Scheme, forwards: bool, addresses: seq<Address>,
                     outcomes: seq<ProxyOutcome>, k: nat)
    requires |outcomes| == |addresses| && ProxyEvidence(r, scheme, forwards, addresses, outcomes)
    requires FirstAnswered(scheme, outcomes, k)
    ensures k < |r.attempts| && r.attempts[k] in r.attempts && !AllFailed(r.attempts)
    ensures FirstAnswerIsError(r.attempts) <==> AnsweredWithError(scheme, outcomes[k])
  {
    hide ProxiedReport, LetThrough, Answered, AnsweredWithError, AnswersWithError, FirstAnswerIsError, AllFailed;
    hide Reachable, Rejected;
    AttemptsShow(r, scheme, forwards, addresses, outcomes);
    assert k < |r.attempts|;
    FirstIsDecisive(r.attempts, k);
  }

  lemma FirstIsDecisive(attempts: seq<ApplicationReport>, k: nat)
    requires k < |attempts| && attempts[k].status != Fail && forall j :: 0 <= j < k ==> attempts[j].status == Fail
    ensures !AllFailed(attempts) && (FirstAnswerIsError(attempts) <==> AnswersWithError(attempts[k]))
  {
    hide AnswersWithError;
    assert attempts[k] in attempts;
  }

  // ----- Nobody answers ------------------------------------------------------------------

  predicate NobodyAnswers(scheme: Scheme, outcomes: seq<ProxyOutcome>) {
    forall o :: o in outcomes ==> !Answered(scheme, o)
  }

  /** The deepest stage at which an attempt over an open stream stops. */
  ghost predicate StopsDeepest(outcomes: seq<ProxyOutcome>, stage: Stage) {
    && stage != ConnectStage && (exists o :: o in outcomes && StopsAt(stage, o))
    && (stage == TlsStage ==> forall o :: o in outcomes ==> !StopsAt(HttpStage, o))
  }

  /** Of the proxy's addresses at which the attempt stops at the stage, the least. */
  ghost predicate LeastStop(addresses: seq<Address>, outcomes: seq<ProxyOutcome>, stage: Stage, k: nat)
    requires |outcomes| == |addresses|
  {
    && k < |outcomes| && StopsAt(stage, outcomes[k])
    && forall j :: 0 <= j < |outcomes| && StopsAt(stage, outcomes[j]) ==> !Before(addresses[j], addresses[k])
  }

  lemma AllTriedInVain(r: Report, scheme: Scheme, forwards: bool, addresses: seq<Address>,
                       outcomes: seq<ProxyOutcome>)
    requires |outcomes| == |addresses| && ProxyEvidence(r, scheme, forwards, addresses, outcomes)
    requires NobodyAnswers(scheme, outcomes)
    ensures |r.attempts| == |addresses| && (outcomes != [] ==> AllFailed(r.attempts))
    ensures forall i :: 0 <= i < |outcomes| ==>
              && r.attempts[i] in r.attempts && r.attempts[i] == ProxiedReport(scheme, addresses[i], outcomes[i])
              && r.attempts[i].address == addresses[i]
              && (r.attempts[i].connect.status == Fail <==> StopsAt(ConnectStage, outcomes[i]))
              && (TlsFailed(r.attempts[i]) <==> StopsAt(TlsStage, outcomes[i]))
              && (HttpFailed(r.attempts[i]) <==> StopsAt(HttpStage, outcomes[i]))
  {
    hide ProxiedReport, LetThrough, Answered, Reachable, Rejected, TlsFailed, HttpFailed, StopsAt;
    AttemptsShow(r, scheme, forwards, addresses, outcomes);
    forall i | 0 <= i < |outcomes| ensures !Answered(scheme, outcomes[i]) {
      assert outcomes[i] in outcomes;
    }
    assert |r.attempts| == |addresses|;
    forall i | 0 <= i < |outcomes|
      ensures r.attempts[i].address == addresses[i]
      ensures r.attempts[i].connect.status == Fail <==> StopsAt(ConnectStage, outcomes[i])
      ensures TlsFailed(r.attempts[i]) <==> StopsAt(TlsStage, outcomes[i])
      ensures HttpFailed(r.attempts[i]) <==> StopsAt(HttpStage, outcomes[i])
    {
      ProxiedFailureShown(scheme, addresses[i], outcomes[i]);
    }
    if outcomes != [] {
      assert r.attempts[0] in r.attempts;
    }
  }

  lemma LeastStopIsLeast(r: Report, scheme: Scheme, forwards: bool, addresses: seq<Address>,
                         outcomes: seq<ProxyOutcome>, stage: Stage) returns (k: nat)
    requires |outcomes| == |addresses| && ProxyEvidence(r, scheme, forwards, addresses, outcomes)
    requires NobodyAnswers(scheme, outcomes)
    requires StopsDeepest(outcomes, stage)
    ensures LeastStop(addresses, outcomes, stage, k) && k < |r.attempts|
    ensures LeastAt(stage, r.attempts) == Some(r.attempts[k])
  {
    hide ProxyEvidence, ProxiedReport, StopsAt, LeastAt, Before, TlsFailed, HttpFailed, NobodyAnswers;
    AllTriedInVain(r, scheme, forwards, addresses, outcomes);
    var least := LeastAt(stage, r.attempts);
    var o :| o in outcomes && StopsAt(stage, o);
    var i :| 0 <= i < |outcomes| && outcomes[i] == o;
    assert AtStage(stage, r.attempts[i]);
    assert least.Some?;
    k :| 0 <= k < |r.attempts| && r.attempts[k] == least.value;
    forall j | 0 <= j < |outcomes| && StopsAt(stage, outcomes[j]) ensures !Before(addresses[j], addresses[k]) {
      assert AtStage(stage, r.attempts[j]);
    }
  }

  /** The deepest stage gives the code, and the error at the least address that got there the cause. */
  lemma FailuresDecideProxied(r: Report, scheme: Scheme, forwards: bool, addresses: seq<Address>,
                              outcomes: seq<ProxyOutcome>, stage: Stage) returns (k: nat)
    requires |outcomes| == |addresses| && ProxyEvidence(r, scheme, forwards, addresses, outcomes)
    requires NobodyAnswers(scheme, outcomes)
    requires SomeLetThrough(scheme, forwards, outcomes) && StopsDeepest(outcomes, stage)
    ensures LeastStop(addresses, outcomes, stage, k) && outcomes[k].Opens?
    ensures Explain(r).code == StageCode(stage) && Explain(r).cause == Observed(outcomes[k].outcome.error)
  {
    hide ProxiedReport, LetThrough, Answered, Reachable, Rejected, Before;
    TransportShows(r, scheme, forwards, addresses, outcomes);
    k := LeastStopIsLeast(r, scheme, forwards, addresses, outcomes, stage);
    hide LeastStop;
    AllTriedInVain(r, scheme, forwards, addresses, outcomes);
    assert outcomes[k] in outcomes;
    ProxiedFailureShown(scheme, addresses[k], outcomes[k]);
    if stage == TlsStage {
      assert LeastAt(HttpStage, r.attempts).None?;
    }
  }

  // ----- The whole verdict ---------------------------------------------------------------

  /** What would happen at the addresses of the proxy, and nothing else, warrants the verdict. */
  ghost predicate WarrantedByProxy(v: Verdict, scheme: Scheme, forwards: bool, addresses: seq<Address>,
                                   outcomes: seq<ProxyOutcome>, proxyError: Option<string>)
    requires |outcomes| == |addresses|
  {
    if !SomeLetThrough(scheme, forwards, outcomes) then
      && v.code == ProxyConnectionFailed
      && (SomeRejected(scheme, forwards, outcomes) ==> v.cause == Stock)
      && (outcomes != [] && !SomeRejected(scheme, forwards, outcomes) ==>
            outcomes[0].OpenFails? && v.cause == Observed(outcomes[0].openError))
      && (outcomes == [] ==> v.cause == if proxyError.Some? then Observed(proxyError.value) else NoCause)
    else if NobodyAnswers(scheme, outcomes) then
      exists stage, k: nat ::
        && StopsDeepest(outcomes, stage) && LeastStop(addresses, outcomes, stage, k) && outcomes[k].Opens?
        && v.code == StageCode(stage) && v.cause == Observed(outcomes[k].outcome.error)
    else
      exists k: nat ::
        && FirstAnswered(scheme, outcomes, k)
        && v.code == if AnsweredWithError(scheme, outcomes[k]) then HttpErrorStatus else ConnectivityOk
  }

  lemma SomeStageStops(scheme: Scheme, forwards: bool, outcomes: seq<ProxyOutcome>) returns (stage: Stage)
    requires SomeLetThrough(scheme, forwards, outcomes) && NobodyAnswers(scheme, outcomes)
    ensures StopsDeepest(outcomes, stage)
  {
    hide TurnedDown;
    var o :| o in outcomes && LetThrough(scheme, forwards, o);
    assert !Answered(scheme, o);
    assert StopsAt(TlsStage, o) || StopsAt(HttpStage, o);
    stage := if exists p :: p in outcomes && StopsAt(HttpStage, p) then HttpStage else TlsStage;
  }

  /** The verdict on the evidence of a proxied run is the one that the proxy's addresses warrant. */
  lemma ProxyAddressesDecide(r: Report, scheme: Scheme, forwards: bool, addresses: seq<Address>,
                             outcomes: seq<ProxyOutcome>)
    requires |outcomes| == |addresses| && ProxyEvidence(r, scheme, forwards, addresses, outcomes)
    ensures WarrantedByProxy(Explain(r), scheme, forwards, addresses, outcomes, r.proxyError)
  {
    hide Explain, ProxyEvidence, Answered, AnsweredWithError, StopsDeepest, LeastStop, FirstAnswered;
    hide SomeLetThrough, SomeRejected;
    if !SomeLetThrough(scheme, forwards, outcomes) {
      ProxyIsNamed(r, scheme, forwards, addresses, outcomes);
    } else if NobodyAnswers(scheme, outcomes) {
      var stage := SomeStageStops(scheme, forwards, outcomes);
      var k := FailuresDecideProxied(r, scheme, forwards, addresses, outcomes, stage);
    } else {
      var o :| o in outcomes && Answered(scheme, o);
      var k := FirstAnsweredExists(scheme, outcomes, o);
      FirstAnswerDecidesProxied(r, scheme, forwards, addresses, outcomes, k);
    }
  }

  /** A proxied run fails exactly when nobody lets the request through or nobody answers. */
  lemma ProxiedRunFailsIff(r: Report, scheme: Scheme, forwards: bool, addresses: seq<Address>,
                           outcomes: seq<ProxyOutcome>)
    requires |outcomes| == |addresses| && ProxyEvidence(r, scheme, forwards, addresses, outcomes)
    ensures Explain(r).overall == Fail <==>
            !SomeLetThrough(scheme, forwards, outcomes) || NobodyAnswers(scheme, outcomes)
    ensures Explain(r).code == ProxyConnectionFailed <==> !SomeLetThrough(scheme, forwards, outcomes)
  {
    hide Explain, ProxyEvidence, Answered, AnsweredWithError, LeastStop, FirstAnswered;
    hide SomeLetThrough, SomeRejected, NobodyAnswers;
    ProxyAddressesDecide(r, scheme, forwards, addresses, outcomes);
    CodeFitsStatus(r);
  }

  /** The stage given for failures through a proxy is one that the attempts show. */
  lemma ProxyClassificationIsGrounded(r: Report, scheme: Scheme, forwards: bool, addresses: seq<Address>,
                                      outcomes: seq<ProxyOutcome>)
    requires |outcomes| == |addresses| && ProxyEvidence(r, scheme, forwards, addresses, outcomes)
    requires AllFailed(r.attempts)
    ensures Grounded(r.attempts)
  {
    hide Grounded, LetThrough, Reachable;
    forall a | a in r.attempts ensures FailureIsLocated(a) {
      var i :| 0 <= i < |r.attempts| && r.attempts[i] == a;
    }
    LocatedIsGrounded(r.attempts);
  }

  /**
    * No address is reachable, and yet the run only warns: one address demands authentication, the next drops the
    * request.
    */
  lemma NothingReachableStillWarns(a: Address, b: Address, r: Report)
    requires var first, second := Exchanges(HttpExchange.Warned(407), ""), Exchanges(HttpExchange.NoAnswer, "closed");
             ProxyEvidence(r, Http, true, [a, b], [Opens(first), Opens(second)])
    ensures r.attempts != [] && (forall i :: 0 <= i < |r.attempts| ==> !Reachable(true, r.attempts[i]))
    ensures Explain(r).code == HttpErrorStatus && Explain(r).overall == Warn && Explain(r).exitCode == 0
  {
    hide Explain;
    var first := Opens(Exchanges(HttpExchange.Warned(407), ""));
    var second := Opens(Exchanges(HttpExchange.NoAnswer, "closed"));
    var outcomes := [first, second];
    assert outcomes[0] == first && outcomes[1] == second && second in outcomes;
    assert LetThrough(Http, true, second) && FirstAnswered(Http, outcomes, 0);
    FirstAnswerDecidesProxied(r, Http, true, [a, b], outcomes, 0);
    CodeFitsStatus(r);
  }
}
