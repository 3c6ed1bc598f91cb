/** What a run without a proxy concludes, from what each resolved address would do. */
module DirectRun {
  import opened Wrappers
  import opened Sequences
  import opened Evidence
  import opened FanOut
  import opened ApplicationProbe
  import opened Diagnosis
  import opened Verdicts

  // ----- Failure and success, from the evidence ------------------------------------------

  /** The application gave an answer, be it an error code. */
  predicate Answers(o: Outcome) {
    o.Exchanges? && !o.verdict.NoAnswer?
  }

  /** The address accepts a TCP connection and, beyond a raw TCP target, the application answers there. */
  predicate Works(scheme: Scheme, a: Address, connect: Address -> Attempt, outcome: Address -> Outcome) {
    connect(a).Connected? && (scheme == Tcp || Answers(outcome(a)))
  }

  lemma WorkingCandidates(scheme: Scheme, addresses: seq<Address>, tcp: seq<TcpResult>,
                          connect: Address -> Attempt, outcome: Address -> Outcome)
    requires |tcp| == |addresses|
    requires forall i :: 0 <= i < |tcp| ==>
               tcp[i].address == addresses[i] && (tcp[i].status == Pass <==> connect(addresses[i]).Connected?)
    ensures (exists a :: a in addresses && Works(scheme, a, connect, outcome)) <==>
            AnyTcpPassed(tcp) && !(scheme != Tcp && EveryCandidateFails(scheme, tcp, outcome))
  {
    forall i | 0 <= i < |tcp|
      ensures tcp[i] in tcp && addresses[i] in addresses
      ensures Works(scheme, addresses[i], connect, outcome) <==>
              && tcp[i].status == Pass
              && (scheme == Tcp || ReportOf(scheme, tcp[i].address, outcome(tcp[i].address)).status != Fail)
    {
    }
  }

  /** The only attempt, at the address that connected fastest, was answered without an error code. */
  predicate FirstAttemptIsClean(attempts: seq<ApplicationReport>) {
    |attempts| == 1 && attempts[0].status != Fail && !AnswersWithError(attempts[0])
  }

  /** All attempts but the last failed. */
  predicate OnlyLastCanAnswer(attempts: seq<ApplicationReport>) {
    attempts != [] && forall i :: 0 <= i < |attempts| - 1 ==> attempts[i].status == Fail
  }

  lemma {:induction false} LastAnswer(attempts: seq<ApplicationReport>)
    requires OnlyLastCanAnswer(attempts)
    ensures var last := attempts[|attempts| - 1];
            && (AllFailed(attempts) <==> last.status == Fail)
            && (HttpErrorCode(attempts).Some? <==> last.status != Fail && AnswersWithError(last))
            && (PartlyFailed(attempts) <==> last.status != Fail && |attempts| > 1)
  {
    assert attempts[0] in attempts && attempts[|attempts| - 1] in attempts;
    if attempts[0].status == Fail && |attempts| > 1 {
      LastAnswer(attempts[1..]);
    }
  }

  lemma DirectAttemptsEndInAnswer(r: Report, scheme: Scheme, addresses: seq<Address>, outcome: Address -> Outcome)
    requires DirectEvidence(r, scheme, addresses, outcome) && scheme != Tcp && AnyTcpPassed(r.tcp)
    ensures OnlyLastCanAnswer(r.attempts)
  {
    hide Candidates, ReportOf, Attempts;
    AttemptsArePrefix(scheme, r.tcp, outcome);
    CandidatesExact(r.tcp);
    var p :| p in r.tcp && p.status == Pass;
    assert p in Candidates(r.tcp);
  }

  /** Once an address accepts TCP, the last attempt and the number of attempts decide on failure and warnings. */
  lemma LastAttemptDecides(r: Report, scheme: Scheme, addresses: seq<Address>, outcome: Address -> Outcome)
    requires DirectEvidence(r, scheme, addresses, outcome) && scheme != Tcp && AnyTcpPassed(r.tcp)
    ensures r.attempts != []
    ensures var v, last := Explain(r), r.attempts[|r.attempts| - 1];
            && (v.overall == Fail <==> last.status == Fail)
            && (v.code == HttpErrorStatus <==> last.status != Fail && AnswersWithError(last))
            && (v.code == ApplicationAddressPartial <==>
                  last.status != Fail && !AnswersWithError(last) && |r.attempts| > 1)
  {
    hide FamiliesAsymmetric, Attempts, AnswersWithError, AllFailed, PartlyFailed, HttpErrorCode, Classify;
    DirectAttemptsEndInAnswer(r, scheme, addresses, outcome);
    LastAnswer(r.attempts);
  }

  /** The families decide only when the first attempt was answered without an error code. */
  lemma FamiliesDecideLast(r: Report, scheme: Scheme, addresses: seq<Address>, outcome: Address -> Outcome)
    requires DirectEvidence(r, scheme, addresses, outcome) && scheme != Tcp && AnyTcpPassed(r.tcp)
    ensures var v, clean := Explain(r), FirstAttemptIsClean(r.attempts);
            && (v.code == AddressFamilyPartial <==> clean && FamiliesAsymmetric(r.tcp))
            && (v.code == ConnectivityOk <==> clean && !FamiliesAsymmetric(r.tcp))
  {
    hide FamiliesAsymmetric, Attempts, AnswersWithError, AllFailed, PartlyFailed, HttpErrorCode, Classify;
    DirectAttemptsEndInAnswer(r, scheme, addresses, outcome);
    LastAnswer(r.attempts);
  }

  /** A direct run passes without any warning only on the first attempt, with no family left out. */
  lemma DirectRunPassesIff(r: Report, scheme: Scheme, addresses: seq<Address>, outcome: Address -> Outcome)
    requires DirectEvidence(r, scheme, addresses, outcome)
    ensures Explain(r).overall == Pass <==>
            && AnyTcpPassed(r.tcp) && !FamiliesAsymmetric(r.tcp)
            && (scheme != Tcp ==> FirstAttemptIsClean(r.attempts))
  {
    hide FamiliesAsymmetric, Classify, AllFailed, FirstAttemptIsClean;
    if AnyTcpPassed(r.tcp) && scheme != Tcp {
      FamiliesDecideLast(r, scheme, addresses, outcome);
      CodeFitsStatus(r);
    } else {
      assert Attempts(Tcp, r.tcp, outcome) == [];
      NothingTried();
    }
  }

  lemma NothingTried()
    ensures !AllFailed([]) && HttpErrorCode([]).None? && !PartlyFailed([])
  {
  }

  // ----- What each address would do ------------------------------------------------------

  /** The results show what became of the connections and of the route inspections. */
  predicate Shows(r: Report, addresses: seq<Address>, connect: Address -> Attempt,
                  inspect: Address -> Option<RouteResult>)
  {
    && TcpShows(r.tcp, addresses, connect) && |r.routes| == |addresses|
    && forall i :: 0 <= i < |addresses| ==> ShowsRoute(r.routes[i], inspect(addresses[i]))
  }

  predicate ShowsAttempt(t: TcpResult, a: Address, attempt: Attempt) {
    && t.address == a && (t.family == Ipv4 <==> a.ip.V4?)
    && match attempt
       case Connected(ms) => t.status == Pass && t.durationMs == ms && t.errorKind == None && t.error == None
       case Failed(kind, _, error) => t.status == Fail && t.errorKind == Some(kind) && t.error == Some(error)
       case Expired(_, error) => t.status == Fail && t.errorKind == Some(TimedOut) && t.error == Some(error)
       case Panicked => t.status == Fail && t.errorKind == Some(Other) && t.error.Some?
  }

  predicate ShowsRoute(route: RouteResult, inspected: Option<RouteResult>) {
    route.errorKind == Some(NoRoute) <==> inspected.Some? && inspected.value.errorKind == Some(NoRoute)
  }

  predicate FailedAs(attempt: Attempt, kind: ErrorKind) {
    attempt.Failed? && attempt.kind == kind
  }

  predicate RanOutOfTime(attempt: Attempt) {
    attempt.Expired? || FailedAs(attempt, TimedOut)
  }

  predicate Unreachable(attempt: Attempt) {
    FailedAs(attempt, NetworkUnreachable) || FailedAs(attempt, HostUnreachable)
  }

  predicate RouteMissing(inspected: Option<RouteResult>) {
    inspected.Some? && inspected.value.errorKind == Some(NoRoute)
  }

  predicate NothingConnects(addresses: seq<Address>, connect: Address -> Attempt) {
    forall a :: a in addresses ==> !connect(a).Connected?
  }

  lemma NothingPassed(tcp: seq<TcpResult>, addresses: seq<Address>, connect: Address -> Attempt)
    requires TcpShows(tcp, addresses, connect)
    ensures NothingConnects(addresses, connect) <==> !AnyTcpPassed(tcp)
  {
    forall i | 0 <= i < |addresses|
      ensures tcp[i] in tcp && addresses[i] in addresses
      ensures tcp[i].status == Pass <==> connect(addresses[i]).Connected?
    {
    }
  }

  predicate TcpShows(tcp: seq<TcpResult>, addresses: seq<Address>, connect: Address -> Attempt) {
    |tcp| == |addresses| && forall i :: 0 <= i < |tcp| ==> ShowsAttempt(tcp[i], addresses[i], connect(addresses[i]))
  }

  lemma KindShown(tcp: seq<TcpResult>, addresses: seq<Address>, connect: Address -> Attempt, kind: ErrorKind)
    requires TcpShows(tcp, addresses, connect) && kind != TimedOut && kind != Other
    ensures EveryKind(tcp, kind) <==> forall a :: a in addresses ==> FailedAs(connect(a), kind)
  {
    forall i | 0 <= i < |tcp|
      ensures tcp[i] in tcp && addresses[i] in addresses
      ensures tcp[i].errorKind == Some(kind) <==> FailedAs(connect(addresses[i]), kind)
    {
    }
  }

  lemma TimeShown(tcp: seq<TcpResult>, addresses: seq<Address>, connect: Address -> Attempt)
    requires TcpShows(tcp, addresses, connect)
    ensures EveryKind(tcp, TimedOut) <==> forall a :: a in addresses ==> RanOutOfTime(connect(a))
  {
    forall i | 0 <= i < |tcp|
      ensures tcp[i] in tcp && addresses[i] in addresses
      ensures tcp[i].errorKind == Some(TimedOut) <==> RanOutOfTime(connect(addresses[i]))
    {
    }
  }

  lemma UnreachableShown(tcp: seq<TcpResult>, addresses: seq<Address>, connect: Address -> Attempt)
    requires TcpShows(tcp, addresses, connect)
    ensures EveryUnreachable(tcp) <==> forall a :: a in addresses ==> Unreachable(connect(a))
  {
    forall i | 0 <= i < |tcp|
      ensures tcp[i] in tcp && addresses[i] in addresses
      ensures tcp[i].errorKind == Some(NetworkUnreachable) || tcp[i].errorKind == Some(HostUnreachable) <==>
              Unreachable(connect(addresses[i]))
    {
    }
  }

  lemma RoutesShown(routes: seq<RouteResult>, addresses: seq<Address>, inspect: Address -> Option<RouteResult>)
    requires |routes| == |addresses| && addresses != []
    requires forall i :: 0 <= i < |addresses| ==> ShowsRoute(routes[i], inspect(addresses[i]))
    ensures AllRoutesMissing(routes) <==> forall a :: a in addresses ==> RouteMissing(inspect(a))
  {
    forall i | 0 <= i < |routes|
      ensures routes[i] in routes && addresses[i] in addresses
      ensures routes[i].errorKind == Some(NoRoute) <==> RouteMissing(inspect(addresses[i]))
    {
    }
  }

  /** Each of these codes has its stock explanation, except the last one, which goes with the first error. */
  lemma FailureCause(r: Report, scheme: Scheme, addresses: seq<Address>, connect: Address -> Attempt,
                     outcome: Address -> Outcome)
    requires DirectEvidence(r, scheme, addresses, outcome) && TcpShows(r.tcp, addresses, connect)
    requires addresses != [] && !AnyTcpPassed(r.tcp)
    ensures var v := Explain(r);
            && (v.code != TcpConnectFailed ==> v.cause == Stock)
            && (v.code == TcpConnectFailed && !connect(addresses[0]).Panicked? ==>
                  v.cause == Observed(connect(addresses[0]).error))
  {
    hide AllTcpErrors, AllRoutesMissing, AnyTcpPassed;
    var t := r.tcp[0];
    assert t in r.tcp && t.status != Pass by { NotPassed(r.tcp, t); }
    assert ShowsAttempt(t, addresses[0], connect(addresses[0]));
  }

  lemma NotPassed(tcp: seq<TcpResult>, t: TcpResult)
    requires !AnyTcpPassed(tcp) && t in tcp
    ensures t.status != Pass
  {
  }

  /** The code for a run in which no address accepts a connection. */
  ghost function RefusalCode(addresses: seq<Address>, connect: Address -> Attempt,
                             inspect: Address -> Option<RouteResult>): Code
  {
    if forall a :: a in addresses ==> FailedAs(connect(a), ConnectionRefused) then TcpConnectionRefused
    else if (forall a :: a in addresses ==> Unreachable(connect(a)))
            || (forall a :: a in addresses ==> RouteMissing(inspect(a))) then NoUsableRoute
    else if forall a :: a in addresses ==> RanOutOfTime(connect(a)) then TcpTimeout
    else TcpConnectFailed
  }

  /** When no address accepts TCP, what became of the connections and routes gives the code and the cause. */
  lemma RefusalsDecide(r: Report, scheme: Scheme, addresses: seq<Address>, connect: Address -> Attempt,
                       inspect: Address -> Option<RouteResult>, outcome: Address -> Outcome)
    requires DirectEvidence(r, scheme, addresses, outcome) && Shows(r, addresses, connect, inspect)
    requires addresses != [] && NothingConnects(addresses, connect)
    ensures Explain(r).code == RefusalCode(addresses, connect, inspect)
    ensures Explain(r).code != TcpConnectFailed ==> Explain(r).cause == Stock
    ensures Explain(r).code == TcpConnectFailed && !connect(addresses[0]).Panicked? ==>
              Explain(r).cause == Observed(connect(addresses[0]).error)
  {
    hide EveryKind, EveryUnreachable, AllRoutesMissing, ShowsRoute, FailedAs, RanOutOfTime, Unreachable, RouteMissing;
    NothingPassed(r.tcp, addresses, connect);
    KindShown(r.tcp, addresses, connect, ConnectionRefused);
    TimeShown(r.tcp, addresses, connect);
    UnreachableShown(r.tcp, addresses, connect);
    RoutesShown(r.routes, addresses, inspect);
    TcpFailureCodes(r);
    hide TcpShows;
    FailureCause(r, scheme, addresses, connect, outcome);
  }

  // ----- Families ------------------------------------------------------------------------

  predicate Resolves(addresses: seq<Address>, v4: bool) {
    exists a :: a in addresses && a.ip.V4? == v4
  }

  predicate Accepts(addresses: seq<Address>, connect: Address -> Attempt, v4: bool) {
    exists a :: a in addresses && a.ip.V4? == v4 && connect(a).Connected?
  }

  /** Addresses of both families are resolved and exactly one of the families accepts a connection. */
  predicate OneFamilyOnly(addresses: seq<Address>, connect: Address -> Attempt) {
    && Resolves(addresses, true) && Resolves(addresses, false)
    && Accepts(addresses, connect, true) != Accepts(addresses, connect, false)
  }

  lemma FamilyShown(tcp: seq<TcpResult>, addresses: seq<Address>, connect: Address -> Attempt, family: Family)
    requires TcpShows(tcp, addresses, connect)
    ensures SomeOf(tcp, family) <==> Resolves(addresses, family == Ipv4)
    ensures SomePassed(tcp, family) <==> Accepts(addresses, connect, family == Ipv4)
  {
    forall i | 0 <= i < |tcp|
      ensures tcp[i] in tcp && addresses[i] in addresses
      ensures tcp[i].family == family <==> addresses[i].ip.V4? == (family == Ipv4)
      ensures tcp[i].status == Pass <==> connect(addresses[i]).Connected?
    {
    }
  }

  lemma FamiliesShown(tcp: seq<TcpResult>, addresses: seq<Address>, connect: Address -> Attempt)
    requires TcpShows(tcp, addresses, connect)
    ensures FamiliesAsymmetric(tcp) <==> OneFamilyOnly(addresses, connect)
  {
    hide TcpShows, Resolves, Accepts, SomeOf, SomePassed, FamiliesAsymmetric;
    AsymmetricMeans(tcp);
    FamilyShown(tcp, addresses, connect, Ipv4);
    FamilyShown(tcp, addresses, connect, Ipv6);
  }

  // ----- Which address decides -----------------------------------------------------------

  /** Address `i` is tried before address `j`: it connected faster, or as fast and was resolved before. */
  predicate Earlier(addresses: seq<Address>, connect: Address -> Attempt, i: nat, j: nat)
    requires i < |addresses| && j < |addresses|
  {
    var x, y := connect(addresses[i]), connect(addresses[j]);
    x.Connected? && y.Connected? && (x.ms < y.ms || (x.ms == y.ms && i < j))
  }

  predicate Connects(addresses: seq<Address>, connect: Address -> Attempt, i: nat) {
    i < |addresses| && connect(addresses[i]).Connected?
  }

  /** Nothing that accepts a connection is tried before it. */
  ghost predicate FastestToConnect(addresses: seq<Address>, connect: Address -> Attempt, k: nat) {
    && Connects(addresses, connect, k)
    && forall j: nat :: Connects(addresses, connect, j) && j != k ==> Earlier(addresses, connect, k, j)
  }

  /** The first address, in the order of trying, where the application answers. */
  ghost predicate FirstToAnswer(addresses: seq<Address>, connect: Address -> Attempt, outcome: Address -> Outcome,
                                k: nat)
  {
    && Connects(addresses, connect, k) && Answers(outcome(addresses[k]))
    && forall j: nat :: Connects(addresses, connect, j) && Answers(outcome(addresses[j])) && j != k ==>
         Earlier(addresses, connect, k, j)
  }

  lemma FirstToAnswerUnique(addresses: seq<Address>, connect: Address -> Attempt, outcome: Address -> Outcome,
                            i: nat, k: nat)
    requires FirstToAnswer(addresses, connect, outcome, i) && FirstToAnswer(addresses, connect, outcome, k)
    ensures i == k
  {
  }

  lemma TriedInOrder(tcp: seq<TcpResult>, addresses: seq<Address>, connect: Address -> Attempt, i: nat, j: nat)
    requires TcpShows(tcp, addresses, connect) && Distinct(addresses) && i < |tcp| && j < |tcp|
    requires tcp[i].status == Pass && tcp[j].status == Pass && GoesBefore(tcp, tcp[i], tcp[j])
    ensures Earlier(addresses, connect, i, j)
  {
    if tcp[i].durationMs == tcp[j].durationMs {
      var p, q :| 0 <= p < q < |tcp| && tcp[p] == tcp[i] && tcp[q] == tcp[j];
      assert addresses[p] == addresses[i] && addresses[q] == addresses[j];
    }
  }

  ghost predicate Ready(r: Report, scheme: Scheme, addresses: seq<Address>, connect: Address -> Attempt,
                  outcome: Address -> Outcome)
  {
    && DirectEvidence(r, scheme, addresses, outcome) && TcpShows(r.tcp, addresses, connect)
    && Distinct(addresses) && scheme != Tcp
  }

  /** Each candidate stands for an address that accepts a connection, in the order of trying. */
  lemma CandidateAt(tcp: seq<TcpResult>, addresses: seq<Address>, connect: Address -> Attempt, n: nat)
    returns (i: nat)
    requires TcpShows(tcp, addresses, connect) && n < |Candidates(tcp)|
    ensures Connects(addresses, connect, i) && i < |tcp| && Candidates(tcp)[n] == tcp[i]
    ensures tcp[i].status == Pass && tcp[i].address == addresses[i]
  {
    hide Candidates;
    CandidatesExact(tcp);
    assert Candidates(tcp)[n] in Candidates(tcp);
    i :| 0 <= i < |tcp| && tcp[i] == Candidates(tcp)[n];
    assert ShowsAttempt(tcp[i], addresses[i], connect(addresses[i]));
  }

  lemma CandidateOf(tcp: seq<TcpResult>, addresses: seq<Address>, connect: Address -> Attempt, i: nat)
    returns (n: nat)
    requires TcpShows(tcp, addresses, connect) && Connects(addresses, connect, i)
    ensures n < |Candidates(tcp)| && Candidates(tcp)[n] == tcp[i]
    ensures tcp[i].status == Pass && tcp[i].address == addresses[i]
  {
    hide Candidates;
    CandidatesExact(tcp);
    assert ShowsAttempt(tcp[i], addresses[i], connect(addresses[i]));
    assert tcp[i] in tcp;
    n :| 0 <= n < |Candidates(tcp)| && Candidates(tcp)[n] == tcp[i];
  }

  /** Candidates at different places stand for different addresses, the earlier place for the one tried earlier. */
  lemma CandidatesFollowTrying(tcp: seq<TcpResult>, addresses: seq<Address>, connect: Address -> Attempt,
                               m: nat, n: nat, i: nat, j: nat)
    requires TcpShows(tcp, addresses, connect) && Distinct(addresses)
    requires m < n < |Candidates(tcp)| && i < |tcp| && j < |tcp|
    requires Candidates(tcp)[m] == tcp[i] && Candidates(tcp)[n] == tcp[j]
    ensures Earlier(addresses, connect, i, j)
  {
    hide Candidates, GoesBefore;
    CandidatesExact(tcp);
    assert Candidates(tcp)[m] in Candidates(tcp) && Candidates(tcp)[n] in Candidates(tcp);
    assert GoesBefore(tcp, Candidates(tcp)[m], Candidates(tcp)[n]);
    TriedInOrder(tcp, addresses, connect, i, j);
  }

  lemma SameResult(tcp: seq<TcpResult>, addresses: seq<Address>, connect: Address -> Attempt, i: nat, j: nat)
    requires TcpShows(tcp, addresses, connect) && Distinct(addresses) && i < |tcp| && j < |tcp| && tcp[i] == tcp[j]
    ensures i == j
  {
    assert addresses[i] == tcp[i].address && addresses[j] == tcp[j].address;
  }

  /** The first candidate is the fastest address, and no other. */
  lemma FirstIsFastest(tcp: seq<TcpResult>, addresses: seq<Address>, connect: Address -> Attempt, m: nat, k: nat)
    requires TcpShows(tcp, addresses, connect) && Distinct(addresses)
    requires m < |Candidates(tcp)| && Connects(addresses, connect, k) && Candidates(tcp)[m] == tcp[k]
    ensures FastestToConnect(addresses, connect, k) <==> m == 0
  {
    hide Candidates;
    if m > 0 {
      var i := CandidateAt(tcp, addresses, connect, 0);
      CandidatesFollowTrying(tcp, addresses, connect, 0, m, i, k);
      assert Earlier(addresses, connect, i, k);
    } else {
      forall j: nat | Connects(addresses, connect, j) && j != k ensures Earlier(addresses, connect, k, j) {
        var n := CandidateOf(tcp, addresses, connect, j);
        if n == 0 { SameResult(tcp, addresses, connect, j, k); }
        CandidatesFollowTrying(tcp, addresses, connect, 0, n, k, j);
      }
    }
  }

  lemma AttemptAt(r: Report, scheme: Scheme, addresses: seq<Address>, connect: Address -> Attempt,
                  outcome: Address -> Outcome, n: nat) returns (i: nat)
    requires Ready(r, scheme, addresses, connect, outcome) && n < |r.attempts|
    ensures Connects(addresses, connect, i) && n < |Candidates(r.tcp)| && Candidates(r.tcp)[n] == r.tcp[i]
    ensures r.attempts[n] == ReportOf(scheme, addresses[i], outcome(addresses[i]))
    ensures r.attempts[n].status != Fail <==> Answers(outcome(addresses[i]))
  {
    hide Candidates, TcpShows, Attempts;
    AttemptsArePrefix(scheme, r.tcp, outcome);
    i := CandidateAt(r.tcp, addresses, connect, n);
  }

  /** If the last attempt does not fail, it was made at the first address to answer. */
  lemma AnswerFound(r: Report, scheme: Scheme, addresses: seq<Address>, connect: Address -> Attempt,
                    outcome: Address -> Outcome) returns (k: nat)
    requires Ready(r, scheme, addresses, connect, outcome)
    requires r.attempts != [] && r.attempts[|r.attempts| - 1].status != Fail
    ensures FirstToAnswer(addresses, connect, outcome, k)
    ensures r.attempts[|r.attempts| - 1] == ReportOf(scheme, addresses[k], outcome(addresses[k]))
    ensures FastestToConnect(addresses, connect, k) <==> |r.attempts| == 1
  {
    hide Candidates, Attempts, Answers, ReportOf, FastestToConnect;
    var m := |r.attempts| - 1;
    AttemptsArePrefix(scheme, r.tcp, outcome);
    k := AttemptAt(r, scheme, addresses, connect, outcome, m);
    FirstIsFastest(r.tcp, addresses, connect, m, k);
    forall j: nat | Connects(addresses, connect, j) && Answers(outcome(addresses[j])) && j != k
      ensures Earlier(addresses, connect, k, j)
    {
      var n := CandidateOf(r.tcp, addresses, connect, j);
      if n <= m {
        var i := AttemptAt(r, scheme, addresses, connect, outcome, n);
        SameResult(r.tcp, addresses, connect, i, j);
      } else {
        CandidatesFollowTrying(r.tcp, addresses, connect, m, n, k, j);
      }
    }
  }

  function VerdictAt(addresses: seq<Address>, outcome: Address -> Outcome, k: nat): HttpExchange.Verdict
    requires k < |addresses| && Answers(outcome(addresses[k]))
  {
    outcome(addresses[k]).verdict
  }

  /** The code for a run in which the application answers first at address `k`. */
  ghost function AnswerCode(addresses: seq<Address>, connect: Address -> Attempt, outcome: Address -> Outcome,
                            k: nat): Code
    requires k < |addresses| && Answers(outcome(addresses[k]))
  {
    if VerdictAt(addresses, outcome, k).Warned? then HttpErrorStatus
    else if !FastestToConnect(addresses, connect, k) then ApplicationAddressPartial
    else if OneFamilyOnly(addresses, connect) then AddressFamilyPartial
    else ConnectivityOk
  }

  /** Beyond a raw TCP target, the first address to answer gives the code, unless none answers. */
  lemma FirstAnswerGivesCode(r: Report, scheme: Scheme, addresses: seq<Address>, connect: Address -> Attempt,
                             outcome: Address -> Outcome, k: nat)
    requires Ready(r, scheme, addresses, connect, outcome) && FirstToAnswer(addresses, connect, outcome, k)
    ensures Explain(r).code == AnswerCode(addresses, connect, outcome, k)
  {
    hide Explain, Candidates, Attempts, OneFamilyOnly, FastestToConnect, FamiliesAsymmetric;
    hide EveryCandidateFails;
    FamiliesShown(r.tcp, addresses, connect);
    var n := CandidateOf(r.tcp, addresses, connect, k);
    assert r.tcp[k] in r.tcp;
    LastAttemptDecides(r, scheme, addresses, outcome);
    FamiliesDecideLast(r, scheme, addresses, outcome);
    var last := r.attempts[|r.attempts| - 1];
    if last.status == Fail {
      AttemptsArePrefix(scheme, r.tcp, outcome);
      var i := AttemptAt(r, scheme, addresses, connect, outcome, n);
      SameResult(r.tcp, addresses, connect, i, k);
    } else {
      var i := AnswerFound(r, scheme, addresses, connect, outcome);
      FirstToAnswerUnique(addresses, connect, outcome, i, k);
      AnswerShown(scheme, addresses[k], outcome(addresses[k]));
    }
  }

  lemma AnswerShown(scheme: Scheme, a: Address, o: Outcome)
    requires Answers(o)
    ensures AnswersWithError(ReportOf(scheme, a, o)) <==> o.verdict.Warned?
  {
  }

  // ----- When the application answers nowhere --------------------------------------------

  /** Some address accepts a connection, and where one does the application gives no answer. */
  predicate NothingAnswers(addresses: seq<Address>, connect: Address -> Attempt, outcome: Address -> Outcome) {
    && (exists a :: a in addresses && connect(a).Connected?)
    && forall a :: a in addresses && connect(a).Connected? ==> !Answers(outcome(a))
  }

  /** Then every address that accepts a connection was tried, in vain. */
  lemma EveryAddressTried(r: Report, scheme: Scheme, addresses: seq<Address>, connect: Address -> Attempt,
                          outcome: Address -> Outcome, i: nat) returns (n: nat)
    requires Ready(r, scheme, addresses, connect, outcome) && NothingAnswers(addresses, connect, outcome)
    requires Connects(addresses, connect, i)
    ensures n < |r.attempts| && r.attempts[n] == ReportOf(scheme, addresses[i], outcome(addresses[i]))
  {
    hide Candidates, Attempts, ReportOf, Answers;
    AttemptsArePrefix(scheme, r.tcp, outcome);
    n := CandidateOf(r.tcp, addresses, connect, i);
    var j := AttemptAt(r, scheme, addresses, connect, outcome, |r.attempts| - 1);
    assert addresses[j] in addresses;
  }

  lemma EveryAttemptFailed(r: Report, scheme: Scheme, addresses: seq<Address>, connect: Address -> Attempt,
                           outcome: Address -> Outcome)
    requires Ready(r, scheme, addresses, connect, outcome) && NothingAnswers(addresses, connect, outcome)
    ensures AllFailed(r.attempts)
  {
    hide Candidates, Attempts, ReportOf, Answers;
    var a :| a in addresses && connect(a).Connected?;
    var i :| 0 <= i < |addresses| && addresses[i] == a;
    var first := EveryAddressTried(r, scheme, addresses, connect, outcome, i);
    forall n | 0 <= n < |r.attempts| ensures r.attempts[n].status == Fail {
      var j := AttemptAt(r, scheme, addresses, connect, outcome, n);
      assert addresses[j] in addresses;
    }
  }

  /** How far an attempt without an answer got. */
  predicate FailsAt(stage: Stage, o: Outcome) {
    match stage
    case ConnectStage => o.ConnectFails?
    case TlsStage => o.TlsFails?
    case HttpStage => o.Exchanges?
  }

  lemma FailureShown(scheme: Scheme, a: Address, o: Outcome)
    requires !Answers(o)
    ensures var report := ReportOf(scheme, a, o);
            && report.address == a
            && (report.connect.status == Fail <==> FailsAt(ConnectStage, o))
            && (TlsFailed(report) <==> FailsAt(TlsStage, o)) && (HttpFailed(report) <==> FailsAt(HttpStage, o))
            && (FailsAt(ConnectStage, o) ==> report.connect.error == Some(o.error))
            && (FailsAt(TlsStage, o) ==> report.tls.value.error == Some(o.error))
            && (FailsAt(HttpStage, o) ==> report.http.value.error == Some(o.error))
  {
  }

  /** Some address that accepts a connection fails at the stage. */
  predicate SomeFailsAt(addresses: seq<Address>, connect: Address -> Attempt, outcome: Address -> Outcome,
                        stage: Stage)
  {
    exists a :: a in addresses && connect(a).Connected? && FailsAt(stage, outcome(a))
  }

  lemma StagesShown(r: Report, scheme: Scheme, addresses: seq<Address>, connect: Address -> Attempt,
                    outcome: Address -> Outcome)
    requires Ready(r, scheme, addresses, connect, outcome) && NothingAnswers(addresses, connect, outcome)
    ensures (exists a :: a in r.attempts && TlsFailed(a)) <==> SomeFailsAt(addresses, connect, outcome, TlsStage)
    ensures (exists a :: a in r.attempts && HttpFailed(a)) <==> SomeFailsAt(addresses, connect, outcome, HttpStage)
    ensures AllConnectsFailed(r.attempts) <==>
            !SomeFailsAt(addresses, connect, outcome, TlsStage) && !SomeFailsAt(addresses, connect, outcome, HttpStage)
  {
    hide Candidates, Attempts, ReportOf, Answers, TlsFailed, HttpFailed, Ready;
    forall n | 0 <= n < |r.attempts|
      ensures exists a :: a in addresses && connect(a).Connected? && !Answers(outcome(a))
                          && r.attempts[n] == ReportOf(scheme, a, outcome(a))
    {
      var i := AttemptAt(r, scheme, addresses, connect, outcome, n);
      assert addresses[i] in addresses;
    }
    forall a | a in addresses && connect(a).Connected?
      ensures ReportOf(scheme, a, outcome(a)) in r.attempts
    {
      var i :| 0 <= i < |addresses| && addresses[i] == a;
      var n := EveryAddressTried(r, scheme, addresses, connect, outcome, i);
    }
    forall a | a in addresses && connect(a).Connected?
      ensures var report := ReportOf(scheme, a, outcome(a));
              && (TlsFailed(report) <==> FailsAt(TlsStage, outcome(a)))
              && (HttpFailed(report) <==> FailsAt(HttpStage, outcome(a)))
              && (report.connect.status == Fail <==> FailsAt(ConnectStage, outcome(a)))
    {
      FailureShown(scheme, a, outcome(a));
    }
  }

  /** The stage at which the run fails is the deepest that any of the addresses reached. */
  ghost predicate DeepestStage(addresses: seq<Address>, connect: Address -> Attempt, outcome: Address -> Outcome,
                               stage: Stage)
  {
    && SomeFailsAt(addresses, connect, outcome, stage)
    && (stage != HttpStage ==> !SomeFailsAt(addresses, connect, outcome, HttpStage))
    && (stage == ConnectStage ==> !SomeFailsAt(addresses, connect, outcome, TlsStage))
  }

  predicate InRange(a: Address) {
    && a.ip.bits < (if a.ip.V4? then 0x1_0000_0000 else 0x1_0000_0000_0000_0000_0000_0000_0000_0000)
    && a.port < 0x1_0000 && a.scope < 0x1_0000_0000
  }

  /** An address as one number: family, value, port and scope, most significant first. */
  function AsNumber(a: Address): nat {
    var family := if a.ip.V4? then 0 else 0x1_0000_0000_0000_0000_0000_0000_0000_0000;
    ((family + a.ip.bits) * 0x1_0000 + a.port) * 0x1_0000_0000 + a.scope
  }

  /** The order of addresses is that of these numbers. */
  lemma OrderIsNumeric(a: Address, b: Address)
    requires InRange(a) && InRange(b)
    ensures Before(a, b) <==> AsNumber(a) < AsNumber(b)
  {
  }

  /** Of the addresses that fail at the stage, the least is at fault. */
  ghost predicate AtFault(addresses: seq<Address>, connect: Address -> Attempt, outcome: Address -> Outcome,
                          stage: Stage, a: Address)
  {
    && a in addresses && connect(a).Connected? && FailsAt(stage, outcome(a))
    && forall b :: b in addresses && connect(b).Connected? && FailsAt(stage, outcome(b)) ==> !Before(b, a)
  }

  lemma LeastIsAtFault(r: Report, scheme: Scheme, addresses: seq<Address>, connect: Address -> Attempt,
                       outcome: Address -> Outcome, stage: Stage) returns (a: Address)
    requires Ready(r, scheme, addresses, connect, outcome) && NothingAnswers(addresses, connect, outcome)
    requires DeepestStage(addresses, connect, outcome, stage)
    ensures AtFault(addresses, connect, outcome, stage, a) && !Answers(outcome(a)) && FailsAt(stage, outcome(a))
    ensures LeastAt(stage, r.attempts) == Some(ReportOf(scheme, a, outcome(a)))
  {
    hide Candidates, Attempts, ReportOf, Answers, TlsFailed, HttpFailed, Before, LeastAt, Ready;
    var least := LeastAt(stage, r.attempts);
    var b :| b in addresses && connect(b).Connected? && FailsAt(stage, outcome(b));
    var n := StageOfAttempt(r, scheme, addresses, connect, outcome, stage, b);
    assert least.Some?;
    var m :| 0 <= m < |r.attempts| && r.attempts[m] == least.value;
    var i := AttemptAt(r, scheme, addresses, connect, outcome, m);
    a := addresses[i];
    assert a in addresses;
    FailureShown(scheme, a, outcome(a));
    forall c | c in addresses && connect(c).Connected? && FailsAt(stage, outcome(c)) ensures !Before(c, a) {
      var k := StageOfAttempt(r, scheme, addresses, connect, outcome, stage, c);
    }
  }

  lemma StageOfAttempt(r: Report, scheme: Scheme, addresses: seq<Address>, connect: Address -> Attempt,
                       outcome: Address -> Outcome, stage: Stage, a: Address) returns (n: nat)
    requires Ready(r, scheme, addresses, connect, outcome) && NothingAnswers(addresses, connect, outcome)
    requires a in addresses && connect(a).Connected? && FailsAt(stage, outcome(a))
    ensures n < |r.attempts| && r.attempts[n].address == a
    ensures r.attempts[n] in r.attempts && AtStage(stage, r.attempts[n])
  {
    hide Candidates, Attempts, ReportOf, Answers, TlsFailed, HttpFailed, Ready;
    var i :| 0 <= i < |addresses| && addresses[i] == a;
    n := EveryAddressTried(r, scheme, addresses, connect, outcome, i);
    FailureShown(scheme, a, outcome(a));
  }

  /** The code for a run whose deepest failure is at the given stage. */
  function StageCode(stage: Stage): Code {
    match stage
    case ConnectStage => ApplicationConnectFailed
    case TlsStage => TlsHandshakeFailed
    case HttpStage => HttpExchangeFailed
  }

  /** The code names the deepest stage, and the cause is the error at the least address that got there. */
  lemma FailuresDecide(r: Report, scheme: Scheme, addresses: seq<Address>, connect: Address -> Attempt,
                       outcome: Address -> Outcome, stage: Stage) returns (a: Address)
    requires Ready(r, scheme, addresses, connect, outcome) && NothingAnswers(addresses, connect, outcome)
    requires DeepestStage(addresses, connect, outcome, stage)
    ensures Explain(r).code == StageCode(stage)
    ensures AtFault(addresses, connect, outcome, stage, a) && Explain(r).cause == Observed(outcome(a).error)
  {
    hide Candidates, Attempts, ReportOf, Answers, Before, NothingAnswers, SomeFailsAt, AtFault, FailsAt;
    EveryAttemptFailed(r, scheme, addresses, connect, outcome);
    SomethingPassed(r.tcp, addresses, connect, outcome);
    StagesShown(r, scheme, addresses, connect, outcome);
    a := LeastIsAtFault(r, scheme, addresses, connect, outcome, stage);
    FailureShown(scheme, a, outcome(a));
    if stage == TlsStage {
      assert LeastAt(HttpStage, r.attempts).None?;
    }
  }

  lemma SomethingPassed(tcp: seq<TcpResult>, addresses: seq<Address>, connect: Address -> Attempt,
                        outcome: Address -> Outcome)
    requires TcpShows(tcp, addresses, connect) && NothingAnswers(addresses, connect, outcome)
    ensures AnyTcpPassed(tcp) && addresses != []
  {
    NothingPassed(tcp, addresses, connect);
  }

  // ----- The whole verdict ---------------------------------------------------------------

  /** What the resolved addresses would do, and nothing else, warrants the verdict. */
  ghost predicate Warranted(v: Verdict, scheme: Scheme, addresses: seq<Address>, connect: Address -> Attempt,
                            inspect: Address -> Option<RouteResult>, outcome: Address -> Outcome)
  {
    if addresses == [] then v.code == DnsResolutionFailed
    else if NothingConnects(addresses, connect) then
      v.code == RefusalCode(addresses, connect, inspect)
    else if scheme == Tcp then
      v.code == if OneFamilyOnly(addresses, connect) then AddressFamilyPartial else ConnectivityOk
    else if NothingAnswers(addresses, connect, outcome) then
      exists stage, a ::
        && DeepestStage(addresses, connect, outcome, stage) && AtFault(addresses, connect, outcome, stage, a)
        && v.code == StageCode(stage) && v.cause == Observed(outcome(a).error)
    else
      exists k: nat ::
        FirstToAnswer(addresses, connect, outcome, k) && v.code == AnswerCode(addresses, connect, outcome, k)
  }

  lemma SomeStageIsDeepest(addresses: seq<Address>, connect: Address -> Attempt, outcome: Address -> Outcome)
    returns (stage: Stage)
    requires NothingAnswers(addresses, connect, outcome)
    ensures DeepestStage(addresses, connect, outcome, stage)
  {
    hide Answers;
    var a :| a in addresses && connect(a).Connected?;
    assert FailsAt(ConnectStage, outcome(a)) || FailsAt(TlsStage, outcome(a)) || FailsAt(HttpStage, outcome(a));
    stage := if SomeFailsAt(addresses, connect, outcome, HttpStage) then HttpStage
             else if SomeFailsAt(addresses, connect, outcome, TlsStage) then TlsStage
             else ConnectStage;
  }

  /** The verdict on the evidence of a direct run is the one that the addresses warrant. */
  lemma AddressesDecide(r: Report, scheme: Scheme, addresses: seq<Address>, connect: Address -> Attempt,
                        inspect: Address -> Option<RouteResult>, outcome: Address -> Outcome)
    requires DirectEvidence(r, scheme, addresses, outcome) && Shows(r, addresses, connect, inspect)
    requires Distinct(addresses)
    ensures Warranted(Explain(r), scheme, addresses, connect, inspect, outcome)
  {
    hide TcpShows, ShowsRoute, NothingConnects, NothingAnswers, OneFamilyOnly, FamiliesAsymmetric;
    hide FirstToAnswer, FastestToConnect, DeepestStage, AtFault, Attempts, AllFailed, Classify;
    NothingPassed(r.tcp, addresses, connect);
    if addresses == [] {
    } else if NothingConnects(addresses, connect) {
      hide Explain, RefusalCode;
      RefusalsDecide(r, scheme, addresses, connect, inspect, outcome);
    } else if scheme == Tcp {
      hide Explain;
      FamiliesShown(r.tcp, addresses, connect);
      TcpRunIsDecided(r, addresses, outcome);
    } else if NothingAnswers(addresses, connect, outcome) {
      hide Explain;
      var stage := SomeStageIsDeepest(addresses, connect, outcome);
      var a := FailuresDecide(r, scheme, addresses, connect, outcome, stage);
    } else {
      hide Explain, AnswerCode;
      var k := SomeAddressAnswersFirst(r, scheme, addresses, connect, outcome);
      FirstAnswerGivesCode(r, scheme, addresses, connect, outcome, k);
    }
  }

  lemma TcpRunIsDecided(r: Report, addresses: seq<Address>, outcome: Address -> Outcome)
    requires DirectEvidence(r, Tcp, addresses, outcome) && AnyTcpPassed(r.tcp)
    ensures Explain(r).code == if FamiliesAsymmetric(r.tcp) then AddressFamilyPartial else ConnectivityOk
  {
    hide FamiliesAsymmetric, AllFailed, PartlyFailed, HttpErrorCode;
    assert r.attempts == [];
    NothingTried();
  }

  lemma SomeAddressAnswersFirst(r: Report, scheme: Scheme, addresses: seq<Address>, connect: Address -> Attempt,
                                outcome: Address -> Outcome) returns (k: nat)
    requires Ready(r, scheme, addresses, connect, outcome)
    requires !NothingConnects(addresses, connect) && !NothingAnswers(addresses, connect, outcome)
    ensures FirstToAnswer(addresses, connect, outcome, k)
  {
    hide Candidates, Attempts, Answers, ReportOf, FirstToAnswer, FastestToConnect;
    var a :| a in addresses && connect(a).Connected? && Answers(outcome(a));
    var i :| 0 <= i < |addresses| && addresses[i] == a;
    var n := CandidateOf(r.tcp, addresses, connect, i);
    AttemptsArePrefix(scheme, r.tcp, outcome);
    var m := |r.attempts| - 1;
    if r.attempts[m].status == Fail {
      var j := AttemptAt(r, scheme, addresses, connect, outcome, n);
      SameResult(r.tcp, addresses, connect, i, j);
    }
    k := AnswerFound(r, scheme, addresses, connect, outcome);
  }
}
