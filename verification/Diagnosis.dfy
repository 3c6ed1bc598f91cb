/** The inference layer: one verdict from all the evidence, by explicit precedence. */
module Diagnosis {
  import opened Wrappers
  import opened Evidence

  datatype Code =
    | ConnectivityOk | DnsResolutionFailed | TcpConnectionRefused | NoUsableRoute | TcpTimeout | TcpConnectFailed
    | AddressFamilyPartial | ApplicationAddressPartial | ApplicationConnectFailed | ProxyConnectionFailed
    | TlsHandshakeFailed | HttpExchangeFailed | HttpErrorStatus

  /** A likely cause: none, the stock explanation that goes with the code, or an observed error. */
  datatype Cause = NoCause | Stock | Observed(text: string)

  datatype Report = Report(
    direct: bool, bypassed: bool, proxyStatus: Status, proxyError: Option<string>,
    dnsStatus: Status, dnsError: Option<string>,
    routes: seq<RouteResult>, tcp: seq<TcpResult>, attempts: seq<ApplicationReport>)

  datatype Verdict = Verdict(overall: Status, code: Code, cause: Cause, exitCode: nat)

  function CauseOf(error: Option<string>): Cause {
    if error.Some? then Observed(error.value) else NoCause
  }

  function ExitCode(overall: Status): nat {
    if overall == Fail then 1 else 0
  }

  // ----- Tests on the evidence -----------------------------------------------------------

  predicate AnyTcpPassed(tcp: seq<TcpResult>) {
    exists r :: r in tcp && r.status == Pass
  }

  predicate AllFailed(attempts: seq<ApplicationReport>) {
    attempts != [] && forall a :: a in attempts ==> a.status == Fail
  }

  predicate AllConnectsFailed(attempts: seq<ApplicationReport>) {
    forall a :: a in attempts ==> a.connect.status == Fail
  }

  predicate AllTcpErrors(tcp: seq<TcpResult>, kinds: set<ErrorKind>) {
    tcp != [] && forall r :: r in tcp ==> r.errorKind.Some? && r.errorKind.value in kinds
  }

  predicate AllRoutesMissing(routes: seq<RouteResult>) {
    routes != [] && forall r :: r in routes ==> r.errorKind == Some(NoRoute)
  }

  /** Whether some address of the family connected; `None` when the family was not resolved. */
  function FamilyState(tcp: seq<TcpResult>, family: Family): Option<bool> {
    if exists r :: r in tcp && r.family == family then
      Some(exists r :: r in tcp && r.family == family && r.status == Pass)
    else None
  }

  predicate FamiliesAsymmetric(tcp: seq<TcpResult>) {
    var v4, v6 := FamilyState(tcp, Ipv4), FamilyState(tcp, Ipv6);
    v4.Some? && v6.Some? && v4 != v6
  }

  predicate SomeOf(tcp: seq<TcpResult>, family: Family) {
    exists t :: t in tcp && t.family == family
  }

  predicate SomePassed(tcp: seq<TcpResult>, family: Family) {
    exists t :: t in tcp && t.family == family && t.status == Pass
  }

  /** The families are out of step when both are there and exactly one of them has a passing result. */
  lemma AsymmetricMeans(tcp: seq<TcpResult>)
    ensures FamiliesAsymmetric(tcp) <==>
            && SomeOf(tcp, Ipv4) && SomeOf(tcp, Ipv6)
            && (SomePassed(tcp, Ipv4) <==> !SomePassed(tcp, Ipv6))
  {
    assert FamilyState(tcp, Ipv4).Some? <==> SomeOf(tcp, Ipv4);
    assert FamilyState(tcp, Ipv6).Some? <==> SomeOf(tcp, Ipv6);
  }

  function FirstError(tcp: seq<TcpResult>): Option<string> {
    if tcp == [] then None else if tcp[0].error.Some? then tcp[0].error else FirstError(tcp[1..])
  }

  function FirstConnectError(attempts: seq<ApplicationReport>): Option<string> {
    if attempts == [] then None
    else if attempts[0].connect.error.Some? then attempts[0].connect.error
    else FirstConnectError(attempts[1..])
  }

  /** The HTTP code of the first attempt that did not fail, if that is an error code. */
  function HttpErrorCode(attempts: seq<ApplicationReport>): Option<nat> {
    if attempts == [] then None
    else if attempts[0].status == Fail then HttpErrorCode(attempts[1..])
    else if AnswersWithError(attempts[0]) then attempts[0].http.value.code
    else None
  }

  /** Some attempt was answered with an error code, after nothing but failures. */
  predicate FirstAnswerIsError(attempts: seq<ApplicationReport>) {
    exists i :: 0 <= i < |attempts| && attempts[i].status != Fail && AnswersWithError(attempts[i])
                && forall j :: 0 <= j < i ==> attempts[j].status == Fail
  }

  lemma {:induction false} HttpErrorCodeMeaning(attempts: seq<ApplicationReport>)
    ensures HttpErrorCode(attempts).Some? <==> FirstAnswerIsError(attempts)
  {
    if attempts != [] && attempts[0].status == Fail {
      var rest := attempts[1..];
      HttpErrorCodeMeaning(rest);
      if FirstAnswerIsError(rest) {
        var i :| 0 <= i < |rest| && rest[i].status != Fail && AnswersWithError(rest[i])
                 && forall j :: 0 <= j < i ==> rest[j].status == Fail;
        assert attempts[i + 1] == rest[i] && forall j :: 1 <= j < i + 1 ==> attempts[j] == rest[j - 1];
      }
      if FirstAnswerIsError(attempts) {
        var i :| 0 <= i < |attempts| && attempts[i].status != Fail && AnswersWithError(attempts[i])
                 && forall j :: 0 <= j < i ==> attempts[j].status == Fail;
        assert rest[i - 1] == attempts[i] && forall j :: 0 <= j < i - 1 ==> rest[j] == attempts[j + 1];
      }
    }
  }

  predicate AnswersWithError(a: ApplicationReport) {
    a.http.Some? && a.http.value.code.Some? && a.http.value.code.value >= 400
  }

  predicate PartlyFailed(attempts: seq<ApplicationReport>) {
    (exists a :: a in attempts && a.status == Fail) && (exists a :: a in attempts && a.status != Fail)
  }

  // ----- Classifying failed attempts by the deepest layer any of them reached ------------

  datatype Stage = ConnectStage | TlsStage | HttpStage

  datatype Failure = Failure(stage: Stage, cause: Option<string>)

  predicate IpBefore(a: Ip, b: Ip) {
    (a.V4? && b.V6?) || (a.V4? && b.V4? && a.bits < b.bits) || (a.V6? && b.V6? && a.bits < b.bits)
  }

  /** The order of socket addresses: address, then port, then scope. */
  predicate Before(a: Address, b: Address) {
    || IpBefore(a.ip, b.ip)
    || (a.ip == b.ip && (a.port < b.port || (a.port == b.port && a.scope < b.scope)))
  }

  predicate HttpFailed(a: ApplicationReport) {
    a.http.Some? && a.http.value.status == Fail
  }

  predicate TlsFailed(a: ApplicationReport) {
    a.tls.Some? && a.tls.value.status == Fail
  }

  /** The first attempt of least address among those at the given stage. */
  function LeastAt(stage: Stage, attempts: seq<ApplicationReport>): (least: Option<ApplicationReport>)
    ensures least.Some? ==> least.value in attempts && AtStage(stage, least.value)
    ensures least.None? <==> forall a :: a in attempts ==> !AtStage(stage, a)
    ensures least.Some? ==> forall a :: a in attempts && AtStage(stage, a) ==> !Before(a.address, least.value.address)
  {
    if attempts == [] then None
    else
      var rest := LeastAt(stage, attempts[1..]);
      var a := attempts[0];
      if AtStage(stage, a) && (rest.None? || !Before(rest.value.address, a.address)) then Some(a) else rest
  }

  predicate AtStage(stage: Stage, a: ApplicationReport) {
    match stage
    case ConnectStage => true
    case TlsStage => TlsFailed(a)
    case HttpStage => HttpFailed(a)
  }

  function Classify(attempts: seq<ApplicationReport>): Option<Failure> {
    if !AllFailed(attempts) then None
    else if AllConnectsFailed(attempts) then
      var least := LeastAt(ConnectStage, attempts);
      Some(Failure(ConnectStage, if least.Some? then least.value.connect.error else None))
    else
      var http, tls := LeastAt(HttpStage, attempts), LeastAt(TlsStage, attempts);
      if http.Some? then Some(Failure(HttpStage, http.value.http.value.error))
      else if tls.Some? then Some(Failure(TlsStage, tls.value.tls.value.error))
      else Some(Failure(HttpStage, None))
  }

  function CodeOf(stage: Stage): Code {
    match stage
    case ConnectStage => ApplicationConnectFailed
    case TlsStage => TlsHandshakeFailed
    case HttpStage => HttpExchangeFailed
  }

  // ----- The verdict as a table ----------------------------------------------------------

  function Of(overall: Status, code: Code, cause: Cause): Verdict {
    Verdict(overall, code, cause, ExitCode(overall))
  }

  function TcpFailureVerdict(r: Report): Verdict {
    if AllTcpErrors(r.tcp, {ConnectionRefused}) then Of(Fail, TcpConnectionRefused, Stock)
    else if AllTcpErrors(r.tcp, {NetworkUnreachable, HostUnreachable}) || AllRoutesMissing(r.routes) then
      Of(Fail, NoUsableRoute, Stock)
    else if AllTcpErrors(r.tcp, {TimedOut}) then Of(Fail, TcpTimeout, Stock)
    else Of(Fail, TcpConnectFailed, CauseOf(FirstError(r.tcp)))
  }

  function ApplicationFailureVerdict(attempts: seq<ApplicationReport>): Verdict
    requires AllFailed(attempts)
  {
    var failure := Classify(attempts).value;
    Of(Fail, CodeOf(failure.stage), CauseOf(failure.cause))
  }

  function DirectVerdict(r: Report): Verdict {
    if r.dnsStatus == Fail then
      Of(Fail, DnsResolutionFailed, if r.dnsError.Some? then Observed(r.dnsError.value) else Stock)
    else if !AnyTcpPassed(r.tcp) then TcpFailureVerdict(r)
    else if AllFailed(r.attempts) then ApplicationFailureVerdict(r.attempts)
    else if HttpErrorCode(r.attempts).Some? then Of(Warn, HttpErrorStatus, Stock)
    else if PartlyFailed(r.attempts) then Of(Warn, ApplicationAddressPartial, Stock)
    else if FamiliesAsymmetric(r.tcp) then Of(Warn, AddressFamilyPartial, Stock)
    else Of(Pass, ConnectivityOk, NoCause)
  }

  predicate AuthenticationDemanded(attempts: seq<ApplicationReport>) {
    exists a :: a in attempts && a.http.Some? && a.http.value.code == Some(407)
  }

  function ProxyVerdict(r: Report): Verdict {
    if r.proxyStatus == Fail && AuthenticationDemanded(r.attempts) then Of(Fail, ProxyConnectionFailed, Stock)
    else if r.proxyStatus == Fail && r.attempts == [] then Of(Fail, ProxyConnectionFailed, CauseOf(r.proxyError))
    else if AllFailed(r.attempts) then
      if AllConnectsFailed(r.attempts) then Of(Fail, ProxyConnectionFailed, CauseOf(FirstConnectError(r.attempts)))
      else ApplicationFailureVerdict(r.attempts)
    else if HttpErrorCode(r.attempts).Some? then Of(Warn, HttpErrorStatus, Stock)
    else Of(Pass, ConnectivityOk, NoCause)
  }

  function Explain(r: Report): Verdict {
    if !r.direct && !r.bypassed then ProxyVerdict(r) else DirectVerdict(r)
  }

  // ----- The same, assigned in place -----------------------------------------------------

  class DiagnosticReport {
    const evidence: Report
    var overall: Status
    var code: Code
    var cause: Cause
    var exitCode: nat

    constructor (r: Report)
      ensures evidence == r && overall == Skip && code == ConnectivityOk && cause == NoCause && exitCode == 2
    {
      evidence := r;
      overall, code, cause, exitCode := Skip, ConnectivityOk, NoCause, 2;
    }

    /** Explain a report that has not been explained before. */
    method ExplainReport()
      requires overall == Skip && code == ConnectivityOk && cause == NoCause
      modifies this
      ensures Verdict(overall, code, cause, exitCode) == Explain(evidence)
    {
      if !evidence.direct && !evidence.bypassed {
        ExplainProxyResult();
        Finish();
        return;
      }
      if evidence.dnsStatus == Fail {
        overall, code := Fail, DnsResolutionFailed;
        cause := if evidence.dnsError.Some? then Observed(evidence.dnsError.value) else Stock;
        Finish();
        return;
      }
      if !AnyTcpPassed(evidence.tcp) {
        DiagnoseTcpFailure();
        Finish();
        return;
      }
      AsymmetricMeans(evidence.tcp);
      var partialFamily := DiagnoseFamilyAsymmetry();
      if AllFailed(evidence.attempts) {
        DiagnoseApplicationFailure();
        Finish();
        return;
      }
      HttpErrorCodeMeaning(evidence.attempts);
      var httpError := DiagnoseHttpError();
      if httpError {
        Finish();
        return;
      }
      if PartlyFailed(evidence.attempts) {
        overall, code, cause := Warn, ApplicationAddressPartial, Stock;
      } else if partialFamily {
        overall := Warn;
      } else {
        overall, code := Pass, ConnectivityOk;
      }
      Finish();
    }

    method ExplainProxyResult()
      requires cause == NoCause
      modifies this`overall, this`code, this`cause
      ensures var v := ProxyVerdict(evidence); overall == v.overall && code == v.code && cause == v.cause
    {
      if evidence.proxyStatus == Fail && AuthenticationDemanded(evidence.attempts) {
        overall, code, cause := Fail, ProxyConnectionFailed, Stock;
        return;
      }
      if evidence.proxyStatus == Fail && evidence.attempts == [] {
        overall, code, cause := Fail, ProxyConnectionFailed, CauseOf(evidence.proxyError);
        return;
      }
      if AllFailed(evidence.attempts) {
        if AllConnectsFailed(evidence.attempts) {
          overall, code, cause := Fail, ProxyConnectionFailed, CauseOf(FirstConnectError(evidence.attempts));
        } else {
          DiagnoseApplicationFailure();
        }
        return;
      }
      HttpErrorCodeMeaning(evidence.attempts);
      var httpError := DiagnoseHttpError();
      if httpError { return; }
      overall, code := Pass, ConnectivityOk;
    }

    method DiagnoseTcpFailure()
      modifies this`overall, this`code, this`cause
      ensures var v := TcpFailureVerdict(evidence); overall == v.overall && code == v.code && cause == v.cause
    {
      overall := Fail;
      var refused := AllTcpErrors(evidence.tcp, {ConnectionRefused});
      var noRoute := AllTcpErrors(evidence.tcp, {NetworkUnreachable, HostUnreachable})
                     || AllRoutesMissing(evidence.routes);
      if refused {
        code, cause := TcpConnectionRefused, Stock;
      } else if noRoute {
        code, cause := NoUsableRoute, Stock;
      } else if AllTcpErrors(evidence.tcp, {TimedOut}) {
        code, cause := TcpTimeout, Stock;
      } else {
        code, cause := TcpConnectFailed, CauseOf(FirstError(evidence.tcp));
      }
    }

    method DiagnoseFamilyAsymmetry() returns (partial: bool)
      modifies this`code, this`cause
      ensures partial <==>
                && SomeOf(evidence.tcp, Ipv4) && SomeOf(evidence.tcp, Ipv6)
                && (SomePassed(evidence.tcp, Ipv4) <==> !SomePassed(evidence.tcp, Ipv6))
      ensures partial ==> code == AddressFamilyPartial && cause == Stock
      ensures !partial ==> code == old(code) && cause == old(cause)
    {
      AsymmetricMeans(evidence.tcp);
      match (FamilyState(evidence.tcp, Ipv4), FamilyState(evidence.tcp, Ipv6)) {
        case (Some(true), Some(false)) => code, cause := AddressFamilyPartial, Stock; return true;
        case (Some(false), Some(true)) => code, cause := AddressFamilyPartial, Stock; return true;
        case _ => return false;
      }
    }

    method DiagnoseApplicationFailure()
      requires AllFailed(evidence.attempts)
      modifies this`overall, this`code, this`cause
      ensures var v := ApplicationFailureVerdict(evidence.attempts);
              overall == v.overall && code == v.code && cause == v.cause
    {
      overall := Fail;
      var failure := Classify(evidence.attempts).value;
      match failure.stage {
        case ConnectStage => code := ApplicationConnectFailed;
        case TlsStage => code := TlsHandshakeFailed;
        case HttpStage => code := HttpExchangeFailed;
      }
      cause := CauseOf(failure.cause);
    }

    /** Look for the first attempt that did not fail. */
    method DiagnoseHttpError() returns (found: bool)
      modifies this`overall, this`code, this`cause
      ensures found <==> FirstAnswerIsError(evidence.attempts)
      ensures found ==> overall == Warn && code == HttpErrorStatus && cause == Stock
      ensures !found ==> overall == old(overall) && code == old(code) && cause == old(cause)
    {
      var attempts := evidence.attempts;
      for i := 0 to |attempts|
        invariant forall j :: 0 <= j < i ==> attempts[j].status == Fail
      {
        if attempts[i].status != Fail {
          found := AnswersWithError(attempts[i]);
          if found {
            overall, code, cause := Warn, HttpErrorStatus, Stock;
          }
          return;
        }
      }
      return false;
    }

    /** Only a failed diagnosis is reported as a failure of the run. */
    method Finish()
      modifies this`exitCode
      ensures exitCode == 1 <==> overall == Fail
      ensures exitCode == 0 <==> overall != Fail
    {
      exitCode := if overall == Fail then 1 else 0;
    }
  }
}
