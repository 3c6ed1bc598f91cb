/** The firewall analysis as three-valued logic over the flows that the evidence allows. */
module NftSoundness {
  import opened Wrappers
  import opened Json
  import opened Evidence
  import opened Nftables

  /** One probed connection: where it goes and through which interface it really leaves. */
  datatype Flow = Flow(address: Address, interface: string)

  /** The flow goes to the address that the route is for, through its interface if that is known. */
  predicate Consistent(f: Flow, route: RouteResult) {
    f.address == route.address && (route.interface.Some? ==> f.interface == route.interface.value)
  }

  /** A flow is possible when it goes to a probed address by the route inspected for that address. */
  predicate PossibleFlow(f: Flow, addresses: seq<Address>, routes: seq<RouteResult>) {
    f.address in addresses && exists r :: r in routes && Consistent(f, r)
  }

  /** Truth values for everything the analysis does not understand. */
  type Valuation = (Json, Flow) -> bool

  // ----- What matches mean, on one flow --------------------------------------------------

  /** What a match asks of a flow. */
  datatype Predicate =
    | ToAddress(ip: Ip) | ToTcpPort(port: nat) | ViaInterface(name: string) | ViaPrefix(prefix: string)
    | Never | NotUnderstood

  function ReadPayload(protocol: Option<string>, field: string, right: Json,
                       parseIp: string -> Option<Ip>): Predicate {
    var ip := if right.Str? then parseIp(right.s) else None;
    var port := AsNat(Some(right));
    if field == "daddr" && ip.Some? && (protocol == Some("ip") || protocol == Some("ip6")) then
      if ip.value.V4? == (protocol == Some("ip")) then ToAddress(ip.value) else Never
    else if field == "dport" && port.Some? && port.value < 0x1_0000 then
      if protocol == Some("tcp") then ToTcpPort(port.value)
      else if protocol == Some("udp") then Never
      else NotUnderstood
    else NotUnderstood
  }

  /** The reading of a match by the program, which takes every interface operand for a name. */
  function Read(matcher: Json, parseIp: string -> Option<Ip>): (p: Predicate)
    ensures !p.ViaPrefix?
  {
    match (AsString(Member(matcher, "op")), Member(matcher, "left"), Member(matcher, "right"))
    case (Some(op), Some(left), Some(right)) =>
      if op != "==" then NotUnderstood
      else (match FieldOf(left)
            case Payload(protocol, Some(field)) => ReadPayload(protocol, field, right, parseIp)
            case OutInterface => if right.Str? then ViaInterface(right.s) else NotUnderstood
            case _ => NotUnderstood)
    case _ => NotUnderstood
  }

  /**
    * What nft means by an interface operand (libnftables-json(5)): `@` refers to a named set, whose members
    * the listing does not settle here; a final `*` stands for any ending unless a backslash takes that away,
    * and `\*` alone is a wildcard expression.
    */
  function OperandMeaning(text: string): (p: Predicate)
    ensures p.ViaInterface? || p.ViaPrefix? || p.NotUnderstood?
  {
    var n := |text|;
    if (n > 0 && text[0] == '@') || text == "\\*" then NotUnderstood
    else if n > 1 && text[n - 1] == '*' && text[n - 2] == '\\' then ViaInterface(text[..n - 2] + "*")
    else if n > 0 && text[n - 1] == '*' then ViaPrefix(text[..n - 1])
    else ViaInterface(text)
  }

  /** An operand that means what the program takes it for. */
  predicate Literal(text: string) {
    OperandMeaning(text) == ViaInterface(text)
  }

  lemma LiteralIff(text: string)
    ensures Literal(text) <==> text == "" || (text[0] != '@' && text[|text| - 1] != '*')
  {
  }

  /** What a match really asks: the program's reading, but for interface operands. */
  function Meaning(matcher: Json, parseIp: string -> Option<Ip>): Predicate {
    match Read(matcher, parseIp)
    case ViaInterface(text) => OperandMeaning(text)
    case p => p
  }

  predicate LiteralMatch(e: Json, parseIp: string -> Option<Ip>) {
    match Member(e, "match")
    case Some(m) => var p := Read(m, parseIp); p.ViaInterface? ==> Literal(p.name)
    case None => true
  }

  /** All interface operands of the rule are names. */
  predicate LiteralOperands(expressions: seq<Json>, parseIp: string -> Option<Ip>) {
    forall e :: e in expressions ==> LiteralMatch(e, parseIp)
  }

  /** Probes are TCP connections, so that a UDP match never holds. */
  predicate Holds(p: Predicate, source: Json, f: Flow, v: Valuation) {
    match p
    case ToAddress(ip) => f.address.ip == ip
    case ToTcpPort(port) => f.address.port == port
    case ViaInterface(name) => f.interface == name
    case ViaPrefix(prefix) => prefix <= f.interface
    case Never => false
    case NotUnderstood => v(source, f)
  }

  predicate Has(e: Json, key: string) {
    e.Object? && key in e.members
  }

  /** The verdict that an expression gives, by the order in which the program looks for verdicts. */
  function NameOfVerdict(e: Json): Option<string> {
    if Has(e, "accept") then Some("accept")
    else if Has(e, "drop") then Some("drop")
    else if Has(e, "reject") then Some("reject")
    else if Has(e, "return") then Some("return")
    else if Has(e, "continue") then Some("continue")
    else if Has(e, "jump") then Some("jump")
    else if Has(e, "goto") then Some("goto")
    else None
  }

  /** A verdict, or nothing but counting, commenting and logging: statements, which every packet passes. */
  predicate Statement(e: Json) {
    || NameOfVerdict(e).Some?
    || (Has(e, "counter") && e.members.Keys <= {"counter", "comment", "log"})
    || (Has(e, "comment") && e.members.Keys <= {"counter", "comment", "log"})
    || (Has(e, "log") && e.members.Keys <= {"counter", "comment", "log"})
  }

  predicate ExpressionHolds(e: Json, f: Flow, v: Valuation, parseIp: string -> Option<Ip>) {
    match Member(e, "match")
    case Some(matcher) => Holds(Meaning(matcher, parseIp), matcher, f, v)
    case None => Statement(e) || v(e, f)
  }

  predicate FamilyHolds(family: string, f: Flow, v: Valuation) {
    if family == "ip" then f.address.ip.V4?
    else if family == "ip6" then f.address.ip.V6?
    else family == "inet" || v(Str(family), f)
  }

  predicate RuleHolds(family: string, expressions: seq<Json>, f: Flow, v: Valuation, parseIp: string -> Option<Ip>) {
    FamilyHolds(family, f, v) && forall e :: e in expressions ==> ExpressionHolds(e, f, v, parseIp)
  }

  // ----- Statements and verdicts ---------------------------------------------------------

  /** The text of a verdict is its name, with the string beside it after a colon. */
  function VerdictText(e: Json, name: string): string {
    match AsString(Member(e, name))
    case Some(target) => name + ":" + target
    case None => name
  }

  lemma {:induction false} NextVerdict(e: Json, name: string, names: seq<string>)
    ensures VerdictFrom(e, [name] + names) == if Has(e, name) then Some(VerdictText(e, name)) else VerdictFrom(e, names)
  {
    assert ([name] + names)[1..] == names;
  }

  lemma {:induction false} NoVerdictLeft(e: Json)
    ensures VerdictFrom(e, []) == None
  {
  }

  lemma {:induction false} LastVerdicts(e: Json)
    requires !Has(e, "accept") && !Has(e, "drop") && !Has(e, "reject")
    ensures VerdictFrom(e, ["return", "continue", "jump", "goto"]) ==
            if NameOfVerdict(e).Some? then Some(VerdictText(e, NameOfVerdict(e).value)) else None
  {
    hide VerdictFrom, VerdictText, Has;
    NoVerdictLeft(e);
    NextVerdict(e, "goto", []);
    NextVerdict(e, "jump", ["goto"]);
    NextVerdict(e, "continue", ["jump", "goto"]);
    NextVerdict(e, "return", ["continue", "jump", "goto"]);
    assert ["goto"] + [] == ["goto"] && ["jump"] + ["goto"] == ["jump", "goto"];
    assert ["continue"] + ["jump", "goto"] == ["continue", "jump", "goto"];
    assert ["return"] + ["continue", "jump", "goto"] == ["return", "continue", "jump", "goto"];
  }

  /** An expression gives a verdict exactly when it has one of the seven names as a key. */
  lemma VerdictIs(e: Json)
    ensures ExtractVerdict(e) ==
            if NameOfVerdict(e).Some? then Some(VerdictText(e, NameOfVerdict(e).value)) else None
  {
    hide VerdictFrom, VerdictText, Has;
    var last := ["return", "continue", "jump", "goto"];
    NextVerdict(e, "accept", ["drop", "reject"] + last);
    NextVerdict(e, "drop", ["reject"] + last);
    NextVerdict(e, "reject", last);
    assert VERDICTS == ["accept"] + (["drop", "reject"] + last);
    assert ["drop", "reject"] + last == ["drop"] + (["reject"] + last);
    if !Has(e, "accept") && !Has(e, "drop") && !Has(e, "reject") { LastVerdicts(e); }
  }

  /** The program passes over exactly the statements. */
  lemma StatementIs(e: Json)
    ensures IsNonPredicate(e) <==> Statement(e)
  {
    hide ExtractVerdict, NameOfVerdict;
    VerdictIs(e);
    if e.Object? && NameOfVerdict(e).None? {
      if IsNonPredicate(e) {
        var key :| key in e.members;
        assert Harmless(key);
        assert e.members.Keys <= {"counter", "comment", "log"};
      }
    }
  }

  // ----- The evaluator reads each match as a question about some flow ---------------------

  predicate InterfacesKnown(routes: seq<RouteResult>) {
    forall r :: r in routes ==> r.interface.Some?
  }

  /** Some address, or some route, satisfies the program's reading. */
  predicate SomewhereTrue(p: Predicate, addresses: seq<Address>, routes: seq<RouteResult>)
    requires !p.NotUnderstood?
  {
    match p
    case ToAddress(ip) => exists a :: a in addresses && a.ip == ip
    case ToTcpPort(port) => exists a :: a in addresses && a.port == port
    case ViaInterface(name) => exists r :: r in routes && r.interface == Some(name)
    case ViaPrefix(prefix) => exists r :: r in routes && r.interface.Some? && prefix <= r.interface.value
    case Never => false
  }

  lemma EvaluateMatchMeaning(matcher: Json, addresses: seq<Address>, routes: seq<RouteResult>,
                             parseIp: string -> Option<Ip>)
    ensures EvaluateMatch(matcher, addresses, routes, parseIp) ==
            var p := Read(matcher, parseIp);
            if p.NotUnderstood? then None else Some(SomewhereTrue(p, addresses, routes))
  {
  }

  lemma FalseSomewhereIsFalse(p: Predicate, source: Json, f: Flow, v: Valuation,
                              addresses: seq<Address>, routes: seq<RouteResult>)
    requires !p.NotUnderstood? && !SomewhereTrue(p, addresses, routes)
    requires InterfacesKnown(routes) && PossibleFlow(f, addresses, routes)
    ensures !Holds(p, source, f, v)
  {
    var r :| r in routes && Consistent(f, r);
  }

  lemma FamilyNoIsSound(family: string, f: Flow, v: Valuation, addresses: seq<Address>, routes: seq<RouteResult>)
    requires FamilyApplicability(family, addresses) == No && PossibleFlow(f, addresses, routes)
    ensures !FamilyHolds(family, f, v)
  {
  }

  /**
    * `No`: with all interfaces known and all operands names, no possible flow satisfies the rule, whatever
    * is not understood.
    */
  lemma NoIsSound(family: string, expressions: seq<Json>, addresses: seq<Address>, routes: seq<RouteResult>,
                  parseIp: string -> Option<Ip>, f: Flow, v: Valuation)
    requires RuleVerdict(family, expressions, addresses, routes, parseIp) == No
    requires InterfacesKnown(routes) && PossibleFlow(f, addresses, routes)
    requires LiteralOperands(expressions, parseIp)
    ensures !RuleHolds(family, expressions, f, v, parseIp)
  {
    if FamilyApplicability(family, addresses) == No {
      FamilyNoIsSound(family, f, v, addresses, routes);
    } else {
      var e :| e in expressions && EvaluateExpression(e, addresses, routes, parseIp) == Some(false);
      var matcher := Member(e, "match").value;
      EvaluateMatchMeaning(matcher, addresses, routes, parseIp);
      FalseSomewhereIsFalse(Read(matcher, parseIp), matcher, f, v, addresses, routes);
      assert LiteralMatch(e, parseIp);
    }
  }

  // ----- One address and one route: an exact three-valued answer -------------------------

  lemma OneFlowFamily(family: string, f: Flow, v: Valuation)
    ensures match FamilyApplicability(family, [f.address])
            case No => !FamilyHolds(family, f, v)
            case Exact => FamilyHolds(family, f, v)
            case Possible => FamilyHolds(family, f, v) == v(Str(family), f)
  {
    assert f.address in [f.address];
  }

  /** What decides about an expression that is not understood. */
  predicate Assumed(e: Json, f: Flow, v: Valuation) {
    match Member(e, "match")
    case Some(matcher) => v(matcher, f)
    case None => v(e, f)
  }

  lemma OneFlowExpression(e: Json, f: Flow, v: Valuation, route: RouteResult, parseIp: string -> Option<Ip>)
    requires route.interface == Some(f.interface) && LiteralMatch(e, parseIp)
    ensures match EvaluateExpression(e, [f.address], [route], parseIp)
            case Some(b) => ExpressionHolds(e, f, v, parseIp) == b
            case None => ExpressionHolds(e, f, v, parseIp) == Assumed(e, f, v)
  {
    match Member(e, "match")
    case Some(matcher) =>
      EvaluateMatchMeaning(matcher, [f.address], [route], parseIp);
      assert f.address in [f.address] && route in [route];
    case None => StatementIs(e);
  }

  /**
    * For one address and one route with a known interface, and operands that are names, the answer is exact:
    * `Exact` when the rule holds under every valuation, `No` when under none, `Possible` when it depends.
    */
  lemma OneFlowIsExact(family: string, expressions: seq<Json>, f: Flow, route: RouteResult,
                       parseIp: string -> Option<Ip>)
    requires route.interface == Some(f.interface) && LiteralOperands(expressions, parseIp)
    ensures var verdict := RuleVerdict(family, expressions, [f.address], [route], parseIp);
            && (verdict == Exact <==> forall v: Valuation :: RuleHolds(family, expressions, f, v, parseIp))
            && (verdict == No <==> forall v: Valuation :: !RuleHolds(family, expressions, f, v, parseIp))
  {
    hide EvaluateExpression, ExpressionHolds, FamilyApplicability, FamilyHolds;
    var verdict := RuleVerdict(family, expressions, [f.address], [route], parseIp);
    forall v: Valuation
      ensures verdict == Exact ==> RuleHolds(family, expressions, f, v, parseIp)
      ensures verdict == No ==> !RuleHolds(family, expressions, f, v, parseIp)
    {
      OneFlowUnder(family, expressions, f, v, route, parseIp);
    }
    var all: Valuation, none: Valuation := (_, _) => true, (_, _) => false;
    OneFlowUnder(family, expressions, f, all, route, parseIp);
    OneFlowUnder(family, expressions, f, none, route, parseIp);
    assert forall e: Json, g: Flow :: all(e, g) && !none(e, g);
  }

  lemma OneFlowUnder(family: string, expressions: seq<Json>, f: Flow, v: Valuation, route: RouteResult,
                     parseIp: string -> Option<Ip>)
    requires route.interface == Some(f.interface) && LiteralOperands(expressions, parseIp)
    ensures var verdict := RuleVerdict(family, expressions, [f.address], [route], parseIp);
            var holds := RuleHolds(family, expressions, f, v, parseIp);
            && (verdict == Exact ==> holds)
            && (verdict == No ==> !holds)
            && (verdict == Possible && (forall e: Json :: v(e, f)) ==> holds)
            && (verdict == Possible && (forall e: Json :: !v(e, f)) ==> !holds)
  {
    hide EvaluateExpression, ExpressionHolds, FamilyApplicability, FamilyHolds;
    OneFlowFamily(family, f, v);
    forall e | e in expressions
      ensures match EvaluateExpression(e, [f.address], [route], parseIp)
              case Some(b) => ExpressionHolds(e, f, v, parseIp) == b
              case None => ExpressionHolds(e, f, v, parseIp) == Assumed(e, f, v)
    {
      OneFlowExpression(e, f, v, route, parseIp);
    }
  }

  // ----- Several addresses: `Exact` is about each predicate on its own --------------------

  /** The expression is understood, and true of some address or some route. */
  predicate TrueSomewhere(e: Json, addresses: seq<Address>, routes: seq<RouteResult>, parseIp: string -> Option<Ip>) {
    match Member(e, "match")
    case Some(m) => var p := Read(m, parseIp); !p.NotUnderstood? && SomewhereTrue(p, addresses, routes)
    case None => Statement(e)
  }

  lemma ExpressionMeaning(e: Json, addresses: seq<Address>, routes: seq<RouteResult>, parseIp: string -> Option<Ip>)
    ensures EvaluateExpression(e, addresses, routes, parseIp) == Some(true) <==>
            TrueSomewhere(e, addresses, routes, parseIp)
  {
    StatementIs(e);
    if Member(e, "match").Some? {
      EvaluateMatchMeaning(Member(e, "match").value, addresses, routes, parseIp);
    }
  }

  /** Every predicate is understood and true of some flow; no flow need satisfy them together. */
  lemma ExactMeans(family: string, expressions: seq<Json>, addresses: seq<Address>, routes: seq<RouteResult>,
                   parseIp: string -> Option<Ip>)
    ensures RuleVerdict(family, expressions, addresses, routes, parseIp) == Exact <==>
            && FamilyApplicability(family, addresses) == Exact
            && forall e :: e in expressions ==> TrueSomewhere(e, addresses, routes, parseIp)
  {
    hide EvaluateExpression, TrueSomewhere, FamilyApplicability;
    forall e | e in expressions
      ensures TrueSomewhere(e, addresses, routes, parseIp) <==>
              (EvaluateExpression(e, addresses, routes, parseIp) != Some(false)
               && EvaluateExpression(e, addresses, routes, parseIp) != None)
    {
      ExpressionMeaning(e, addresses, routes, parseIp);
      var value := EvaluateExpression(e, addresses, routes, parseIp);
      if value.Some? {
        if value.value { assert value == Some(true); } else { assert value == Some(false); }
      }
    }
  }

  // ----- When `Exact` has a flow, and when `No` is sound ----------------------------------

  /** What the pipeline hands over: one route for each probed address, in the same order. */
  predicate Gathered(addresses: seq<Address>, routes: seq<RouteResult>) {
    |routes| == |addresses| && forall i :: 0 <= i < |routes| ==> routes[i].address == addresses[i]
  }

  function MatchOf(left: Json, right: Json): Json {
    Object(map["match" := Object(map["op" := Str("=="), "left" := left, "right" := right])])
  }

  function PayloadOf(protocol: string, field: string): Json {
    Object(map["payload" := Object(map["protocol" := Str(protocol), "field" := Str(field)])])
  }

  function DportMatch(port: nat): Json {
    MatchOf(PayloadOf("tcp", "dport"), Num(PosInt(port)))
  }

  /** `text` writes addresses as `parseIp` reads them. */
  function DaddrMatch(ip: Ip, text: Ip -> string): Json {
    MatchOf(PayloadOf(if ip.V4? then "ip" else "ip6", "daddr"), Str(text(ip)))
  }

  function OifnameMatch(name: string): Json {
    MatchOf(Object(map["meta" := Object(map["key" := Str("oifname")])]), Str(name))
  }

  /** The expression is a match that the program reads like this. */
  predicate ReadsAs(e: Json, p: Predicate, parseIp: string -> Option<Ip>) {
    Member(e, "match").Some? && Read(Member(e, "match").value, parseIp) == p
  }

  lemma MatchIsRead(left: Json, right: Json)
    ensures Member(MatchOf(left, right), "match").Some?
    ensures var m := Member(MatchOf(left, right), "match").value;
            && Member(m, "op") == Some(Str("=="))
            && Member(m, "left") == Some(left) && Member(m, "right") == Some(right)
  {
    var m := Object(map["op" := Str("=="), "left" := left, "right" := right]);
    assert Member(MatchOf(left, right), "match") == Some(m);
  }

  lemma PayloadIsRead(protocol: string, field: string)
    ensures FieldOf(PayloadOf(protocol, field)) == Payload(Some(protocol), Some(field))
  {
    var payload := Object(map["protocol" := Str(protocol), "field" := Str(field)]);
    assert Member(PayloadOf(protocol, field), "payload") == Some(payload);
  }

  lemma DportIsRead(port: nat, parseIp: string -> Option<Ip>)
    requires port < 0x1_0000
    ensures ReadsAs(DportMatch(port), ToTcpPort(port), parseIp)
  {
    hide MatchOf, PayloadOf;
    MatchIsRead(PayloadOf("tcp", "dport"), Num(PosInt(port)));
    PayloadIsRead("tcp", "dport");
  }

  lemma DaddrIsRead(ip: Ip, text: Ip -> string, parseIp: string -> Option<Ip>)
    requires parseIp(text(ip)) == Some(ip)
    ensures ReadsAs(DaddrMatch(ip, text), ToAddress(ip), parseIp)
  {
    hide MatchOf, PayloadOf;
    var protocol := if ip.V4? then "ip" else "ip6";
    MatchIsRead(PayloadOf(protocol, "daddr"), Str(text(ip)));
    PayloadIsRead(protocol, "daddr");
  }

  lemma OifnameIsRead(name: string, parseIp: string -> Option<Ip>)
    ensures ReadsAs(OifnameMatch(name), ViaInterface(name), parseIp)
  {
    hide MatchOf;
    var left := Object(map["meta" := Object(map["key" := Str("oifname")])]);
    assert FieldOf(left) == OutInterface;
    MatchIsRead(left, Str(name));
  }

  /** Some possible flow satisfies the rule, whatever is not understood. */
  ghost predicate SomeFlowSatisfies(family: string, expressions: seq<Json>, addresses: seq<Address>,
                                    routes: seq<RouteResult>, parseIp: string -> Option<Ip>) {
    exists f: Flow ::
      PossibleFlow(f, addresses, routes) && forall v: Valuation :: RuleHolds(family, expressions, f, v, parseIp)
  }

  ghost predicate ExactHasFlow(addresses: seq<Address>, routes: seq<RouteResult>, parseIp: string -> Option<Ip>) {
    forall family: string, expressions: seq<Json> ::
      RuleVerdict(family, expressions, addresses, routes, parseIp) == Exact && LiteralOperands(expressions, parseIp) ==>
        SomeFlowSatisfies(family, expressions, addresses, routes, parseIp)
  }

  predicate OneDestination(addresses: seq<Address>) {
    forall a, b :: a in addresses && b in addresses ==> a.ip == b.ip && a.port == b.port
  }

  /** The interface of the route is known, and its name stands for itself in a rule. */
  predicate Named(r: RouteResult) {
    r.interface.Some? && Literal(r.interface.value)
  }

  predicate OneInterface(routes: seq<RouteResult>) {
    forall r, s :: r in routes && s in routes && Named(r) && Named(s) ==> r.interface == s.interface
  }

  /** The address and the interface that the evidence leaves, when it leaves one of each. */
  lemma OnlyFlow(addresses: seq<Address>, routes: seq<RouteResult>) returns (f: Flow)
    requires Gathered(addresses, routes) && addresses != []
    requires OneDestination(addresses) && OneInterface(routes)
    ensures PossibleFlow(f, addresses, routes)
    ensures forall a :: a in addresses ==> a.ip == f.address.ip && a.port == f.address.port
    ensures forall r :: r in routes && Named(r) ==> r.interface.value == f.interface
  {
    hide Literal;
    var route := routes[0];
    if exists r :: r in routes && Named(r) {
      route :| route in routes && Named(route);
    }
    f := Flow(route.address, if route.interface.Some? then route.interface.value else "");
    assert Consistent(f, route);
  }

  lemma ExactRuleHasFlow(family: string, expressions: seq<Json>, addresses: seq<Address>, routes: seq<RouteResult>,
                         parseIp: string -> Option<Ip>)
    requires Gathered(addresses, routes) && OneDestination(addresses) && OneInterface(routes)
    requires RuleVerdict(family, expressions, addresses, routes, parseIp) == Exact
    requires LiteralOperands(expressions, parseIp)
    ensures SomeFlowSatisfies(family, expressions, addresses, routes, parseIp)
  {
    hide RuleVerdict, Read, Statement, OperandMeaning;
    ExactMeans(family, expressions, addresses, routes, parseIp);
    var f := OnlyFlow(addresses, routes);
    forall v: Valuation ensures RuleHolds(family, expressions, f, v, parseIp) {
      forall e | e in expressions ensures ExpressionHolds(e, f, v, parseIp) {
        assert TrueSomewhere(e, addresses, routes, parseIp) && LiteralMatch(e, parseIp);
      }
    }
  }

  /** No possible flow satisfies the rule, under any valuation. */
  ghost predicate NoFlowSatisfies(family: string, expressions: seq<Json>, addresses: seq<Address>,
                                  routes: seq<RouteResult>, parseIp: string -> Option<Ip>) {
    forall f: Flow, v: Valuation ::
      PossibleFlow(f, addresses, routes) ==> !RuleHolds(family, expressions, f, v, parseIp)
  }

  lemma NoFlowIsNotSome(family: string, expressions: seq<Json>, addresses: seq<Address>, routes: seq<RouteResult>,
                        parseIp: string -> Option<Ip>)
    requires NoFlowSatisfies(family, expressions, addresses, routes, parseIp)
    ensures !SomeFlowSatisfies(family, expressions, addresses, routes, parseIp)
  {
    hide PossibleFlow, RuleHolds;
    var all: Valuation := (_, _) => true;
    assert forall f: Flow :: PossibleFlow(f, addresses, routes) ==> !RuleHolds(family, expressions, f, all, parseIp);
  }

  /** Two matches, each true somewhere, that no possible flow satisfies together. */
  lemma ConflictingMatches(d: Json, e: Json, p: Predicate, q: Predicate, addresses: seq<Address>,
                           routes: seq<RouteResult>, parseIp: string -> Option<Ip>)
    requires addresses != [] && ReadsAs(d, p, parseIp) && ReadsAs(e, q, parseIp)
    requires !p.NotUnderstood? && !q.NotUnderstood?
    requires (p.ViaInterface? ==> Literal(p.name)) && (q.ViaInterface? ==> Literal(q.name))
    requires SomewhereTrue(p, addresses, routes) && SomewhereTrue(q, addresses, routes)
    requires forall f: Flow, v: Valuation ::
               PossibleFlow(f, addresses, routes) && Holds(p, d, f, v) ==> !Holds(q, e, f, v)
    ensures RuleVerdict("inet", [d, e], addresses, routes, parseIp) == Exact
    ensures NoFlowSatisfies("inet", [d, e], addresses, routes, parseIp)
    ensures !ExactHasFlow(addresses, routes, parseIp)
  {
    hide RuleVerdict, Read, SomewhereTrue, PossibleFlow, SomeFlowSatisfies, OperandMeaning;
    var rule := [d, e];
    ExactMeans("inet", rule, addresses, routes, parseIp);
    forall f: Flow, v: Valuation | PossibleFlow(f, addresses, routes)
      ensures !RuleHolds("inet", rule, f, v, parseIp)
    {
      assert rule[0] in rule && rule[1] in rule;
      assert Holds(p, d, f, v) ==> !Holds(q, e, f, v);
      var matcher := Member(d, "match").value;
      assert ExpressionHolds(d, f, v, parseIp) == Holds(p, matcher, f, v) == Holds(p, d, f, v);
    }
    NoFlowIsNotSome("inet", rule, addresses, routes, parseIp);
  }

  lemma TwoDestinations(a: Address, b: Address, addresses: seq<Address>, routes: seq<RouteResult>,
                        parseIp: string -> Option<Ip>, text: Ip -> string)
    requires a in addresses && b in addresses && (a.ip != b.ip || a.port != b.port)
    requires parseIp(text(a.ip)) == Some(a.ip) && parseIp(text(b.ip)) == Some(b.ip)
    requires a.port < 0x1_0000 && b.port < 0x1_0000
    ensures !ExactHasFlow(addresses, routes, parseIp)
  {
    hide ReadsAs, PossibleFlow, ExactHasFlow, DaddrMatch, DportMatch;
    if a.ip != b.ip {
      DaddrIsRead(a.ip, text, parseIp);
      DaddrIsRead(b.ip, text, parseIp);
      ConflictingMatches(DaddrMatch(a.ip, text), DaddrMatch(b.ip, text), ToAddress(a.ip), ToAddress(b.ip),
                         addresses, routes, parseIp);
    } else {
      DportIsRead(a.port, parseIp);
      DportIsRead(b.port, parseIp);
      ConflictingMatches(DportMatch(a.port), DportMatch(b.port), ToTcpPort(a.port), ToTcpPort(b.port),
                         addresses, routes, parseIp);
    }
  }

  lemma TwoInterfaces(r: RouteResult, s: RouteResult, addresses: seq<Address>, routes: seq<RouteResult>,
                      parseIp: string -> Option<Ip>)
    requires r in routes && s in routes && addresses != []
    requires Named(r) && Named(s) && r.interface != s.interface
    ensures !ExactHasFlow(addresses, routes, parseIp)
  {
    hide ReadsAs, PossibleFlow, ExactHasFlow, OifnameMatch, Literal;
    var x, y := r.interface.value, s.interface.value;
    OifnameIsRead(x, parseIp);
    OifnameIsRead(y, parseIp);
    ConflictingMatches(OifnameMatch(x), OifnameMatch(y), ViaInterface(x), ViaInterface(y), addresses, routes, parseIp);
  }

  /**
    * On gathered evidence, every `Exact` rule with names for operands is satisfied by a possible flow exactly
    * when all addresses agree in address and port and all interfaces that such rules can name are the same.
    */
  lemma ExactHasFlowIff(addresses: seq<Address>, routes: seq<RouteResult>, parseIp: string -> Option<Ip>,
                        text: Ip -> string)
    requires Gathered(addresses, routes)
    requires forall a :: a in addresses ==> parseIp(text(a.ip)) == Some(a.ip) && a.port < 0x1_0000
    ensures ExactHasFlow(addresses, routes, parseIp) <==> OneDestination(addresses) && OneInterface(routes)
  {
    hide RuleVerdict, SomeFlowSatisfies, LiteralOperands, Literal;
    if OneDestination(addresses) && OneInterface(routes) {
      forall family: string, expressions: seq<Json>
        | RuleVerdict(family, expressions, addresses, routes, parseIp) == Exact && LiteralOperands(expressions, parseIp)
        ensures SomeFlowSatisfies(family, expressions, addresses, routes, parseIp)
      {
        ExactRuleHasFlow(family, expressions, addresses, routes, parseIp);
      }
    } else if !OneDestination(addresses) {
      var a, b :| a in addresses && b in addresses && (a.ip != b.ip || a.port != b.port);
      TwoDestinations(a, b, addresses, routes, parseIp, text);
    } else {
      var r, t :| r in routes && t in routes && Named(r) && Named(t) && r.interface != t.interface;
      TwoInterfaces(r, t, addresses, routes, parseIp);
    }
  }

  /**
    * Two addresses of one target, routed through different interfaces: a rule for the first address
    * and the second interface is `Exact`, and no possible flow satisfies it.
    */
  lemma ExactWithoutAnyFlow(ra: RouteResult, rb: RouteResult, parseIp: string -> Option<Ip>, text: Ip -> string)
    requires ra.address.ip != rb.address.ip && ra.address.port == rb.address.port
    requires parseIp(text(ra.address.ip)) == Some(ra.address.ip)
    requires ra.interface.Some? && Named(rb) && ra.interface != rb.interface
    ensures var rule := [DaddrMatch(ra.address.ip, text), OifnameMatch(rb.interface.value)];
            var addresses, routes := [ra.address, rb.address], [ra, rb];
            && Gathered(addresses, routes)
            && RuleVerdict("inet", rule, addresses, routes, parseIp) == Exact
            && NoFlowSatisfies("inet", rule, addresses, routes, parseIp)
  {
    hide ReadsAs, RuleVerdict, NoFlowSatisfies, OifnameMatch, DaddrMatch, Literal;
    var ip, name := ra.address.ip, rb.interface.value;
    var addresses, routes := [ra.address, rb.address], [ra, rb];
    DaddrIsRead(ip, text, parseIp);
    OifnameIsRead(name, parseIp);
    assert addresses[0] in addresses && routes[1] in routes;
    ConflictingMatches(DaddrMatch(ip, text), OifnameMatch(name), ToAddress(ip), ViaInterface(name),
                       addresses, routes, parseIp);
  }

  /** No possible flow satisfies a rule with names for operands that is answered with `No`. */
  ghost predicate NoIsSafe(addresses: seq<Address>, routes: seq<RouteResult>, parseIp: string -> Option<Ip>) {
    forall family: string, expressions: seq<Json>, f: Flow, v: Valuation ::
      && RuleVerdict(family, expressions, addresses, routes, parseIp) == No
      && LiteralOperands(expressions, parseIp) && PossibleFlow(f, addresses, routes) ==>
        !RuleHolds(family, expressions, f, v, parseIp)
  }

  lemma {:induction false} FreshName(routes: seq<RouteResult>) returns (name: string)
    ensures forall r :: r in routes && r.interface.Some? ==> |r.interface.value| < |name|
    ensures Literal(name)
  {
    if routes == [] {
      name := "";
    } else {
      var longer := FreshName(routes[1..]);
      var first := if routes[0].interface.Some? then routes[0].interface.value else "";
      name := "-" + longer + first + "-";
    }
  }

  /** The rule with one interface match, which the program compares with the known interfaces. */
  lemma OifnameVerdict(text: string, addresses: seq<Address>, routes: seq<RouteResult>, parseIp: string -> Option<Ip>)
    requires addresses != []
    ensures RuleVerdict("inet", [OifnameMatch(text)], addresses, routes, parseIp) ==
            if exists r :: r in routes && r.interface == Some(text) then Exact else No
  {
    hide OifnameMatch, Read, EvaluateMatch;
    var e := OifnameMatch(text);
    OifnameIsRead(text, parseIp);
    EvaluateMatchMeaning(Member(e, "match").value, addresses, routes, parseIp);
    assert e in [e];
    var some := exists r :: r in routes && r.interface == Some(text);
    assert EvaluateExpression(e, addresses, routes, parseIp) == Some(some);
  }

  lemma OifnameHolds(text: string, f: Flow, v: Valuation, parseIp: string -> Option<Ip>)
    ensures RuleHolds("inet", [OifnameMatch(text)], f, v, parseIp) <==>
            Holds(OperandMeaning(text), Member(OifnameMatch(text), "match").value, f, v)
  {
    hide OifnameMatch, Read, OperandMeaning;
    OifnameIsRead(text, parseIp);
    var rule := [OifnameMatch(text)];
    assert rule[0] in rule;
  }

  /** A route without an interface may leave through any, and no route is known to. */
  lemma UnknownInterfaceIsUnsafe(route: RouteResult, addresses: seq<Address>, routes: seq<RouteResult>,
                                 parseIp: string -> Option<Ip>)
    requires route in routes && route.address in addresses && route.interface == None
    ensures !NoIsSafe(addresses, routes, parseIp)
  {
    hide OifnameMatch, Read, RuleVerdict, RuleHolds;
    var name := FreshName(routes);
    var e := OifnameMatch(name);
    var f, v: Valuation := Flow(route.address, name), (_, _) => true;
    OifnameVerdict(name, addresses, routes, parseIp);
    OifnameHolds(name, f, v, parseIp);
    OifnameIsRead(name, parseIp);
    assert LiteralOperands([e], parseIp);
    assert Consistent(f, route) && PossibleFlow(f, addresses, routes);
    assert RuleHolds("inet", [e], f, v, parseIp);
  }

  /**
    * On evidence whose routes are for probed addresses, `No` is sound for all rules with names for operands
    * exactly when all interfaces are known.
    */
  lemma NoIsSafeIff(addresses: seq<Address>, routes: seq<RouteResult>, parseIp: string -> Option<Ip>)
    requires forall r :: r in routes ==> r.address in addresses
    ensures NoIsSafe(addresses, routes, parseIp) <==> InterfacesKnown(routes)
  {
    hide RuleVerdict, RuleHolds, PossibleFlow, LiteralOperands;
    if InterfacesKnown(routes) {
      forall family: string, expressions: seq<Json>, f: Flow, v: Valuation
        | RuleVerdict(family, expressions, addresses, routes, parseIp) == No
          && LiteralOperands(expressions, parseIp) && PossibleFlow(f, addresses, routes)
        ensures !RuleHolds(family, expressions, f, v, parseIp)
      {
        NoIsSound(family, expressions, addresses, routes, parseIp, f, v);
      }
    } else {
      var route :| route in routes && route.interface.None?;
      UnknownInterfaceIsUnsafe(route, addresses, routes, parseIp);
    }
  }

  // ----- Operands that are not names -----------------------------------------------------

  /** Some valuation lets the operand stand for the interface. */
  predicate CanMean(text: string, interface: string) {
    match OperandMeaning(text)
    case ViaInterface(name) => interface == name
    case ViaPrefix(prefix) => prefix <= interface
    case _ => true
  }

  /** Every valuation does. */
  predicate MustMean(text: string, interface: string) {
    CanMean(text, interface) && !OperandMeaning(text).NotUnderstood?
  }

  /** One interface match on one flow: what the program answers, and what is the case. */
  lemma OperandOnOneFlow(text: string, f: Flow, route: RouteResult, parseIp: string -> Option<Ip>)
    requires route.address == f.address && route.interface == Some(f.interface)
    ensures var rule := [OifnameMatch(text)];
            && PossibleFlow(f, [f.address], [route])
            && RuleVerdict("inet", rule, [f.address], [route], parseIp) == (if f.interface == text then Exact else No)
            && ((exists v: Valuation :: RuleHolds("inet", rule, f, v, parseIp)) <==> CanMean(text, f.interface))
            && ((forall v: Valuation :: RuleHolds("inet", rule, f, v, parseIp)) <==> MustMean(text, f.interface))
  {
    hide OifnameMatch, RuleVerdict, RuleHolds, OperandMeaning;
    assert route in [route] && Consistent(f, route);
    OifnameIsRead(text, parseIp);
    OifnameVerdict(text, [f.address], [route], parseIp);
    assert (exists r :: r in [route] && r.interface == Some(text)) <==> f.interface == text;
    forall v: Valuation
      ensures RuleHolds("inet", [OifnameMatch(text)], f, v, parseIp) <==>
              Holds(OperandMeaning(text), Member(OifnameMatch(text), "match").value, f, v)
    {
      OifnameHolds(text, f, v, parseIp);
    }
    var all: Valuation, none: Valuation := (_, _) => true, (_, _) => false;
    var source := Member(OifnameMatch(text), "match").value;
    assert all(source, f) && !none(source, f);
    assert RuleHolds("inet", [OifnameMatch(text)], f, all, parseIp) <==> CanMean(text, f.interface);
    assert RuleHolds("inet", [OifnameMatch(text)], f, none, parseIp) <==> MustMean(text, f.interface);
  }

  /** The operand can stand for an interface that is not spelled like it. */
  ghost predicate Misread(text: string) {
    exists interface :: interface != text && CanMean(text, interface)
  }

  lemma MisreadIff(text: string)
    ensures Misread(text) <==> !Literal(text)
  {
    if !Literal(text) {
      var n := |text|;
      var meant := match OperandMeaning(text)
                   case ViaInterface(name) => name
                   case ViaPrefix(prefix) => prefix + "00"
                   case _ => text + "0";
      assert |meant| != n || meant != text;
      assert CanMean(text, meant);
    }
  }

  /** For every operand that is not a name there is an interface that nft matches and the program rules out. */
  lemma OtherOperandsAreUnsafe(text: string, address: Address, parseIp: string -> Option<Ip>)
    returns (route: RouteResult, v: Valuation)
    requires !Literal(text)
    ensures Gathered([address], [route]) && InterfacesKnown([route]) && route.interface.Some?
    ensures var rule, f := [OifnameMatch(text)], Flow(address, route.interface.value);
            && RuleVerdict("inet", rule, [address], [route], parseIp) == No
            && PossibleFlow(f, [address], [route]) && RuleHolds("inet", rule, f, v, parseIp)
  {
    hide OifnameMatch, RuleVerdict, RuleHolds, OperandMeaning, Literal;
    MisreadIff(text);
    var interface :| interface != text && CanMean(text, interface);
    route := RouteResult(Pass, address, Some(interface), None, None);
    OperandOnOneFlow(text, Flow(address, interface), route, parseIp);
    v :| RuleHolds("inet", [OifnameMatch(text)], Flow(address, interface), v, parseIp);
  }

  /** A wildcard and a set, with the flow known to leave through `eth0`. */
  lemma WildcardAndSetAreRuledOut(route: RouteResult, parseIp: string -> Option<Ip>)
    requires route.interface == Some("eth0")
    ensures var f := Flow(route.address, "eth0");
            && PossibleFlow(f, [route.address], [route])
            && RuleVerdict("inet", [OifnameMatch("eth*")], [route.address], [route], parseIp) == No
            && (forall v: Valuation :: RuleHolds("inet", [OifnameMatch("eth*")], f, v, parseIp))
            && RuleVerdict("inet", [OifnameMatch("@lan")], [route.address], [route], parseIp) == No
            && (exists v: Valuation :: RuleHolds("inet", [OifnameMatch("@lan")], f, v, parseIp))
  {
    hide OifnameMatch, RuleVerdict, RuleHolds;
    OperandOnOneFlow("eth*", Flow(route.address, "eth0"), route, parseIp);
    OperandOnOneFlow("@lan", Flow(route.address, "eth0"), route, parseIp);
    assert "eth*"[..3] == "eth" && "eth" <= "eth0";
    assert "eth*"[3] == '*' && "eth0"[3] == '0' && "@lan"[0] == '@' && "eth0"[0] == 'e';
  }
}
