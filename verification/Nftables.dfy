/** Static analysis of an nftables listing: which rules may apply to the probed traffic. */
module Nftables {
  import opened Wrappers
  import opened Text
  import opened Json
  import opened Evidence

  datatype Applicability = No | Exact | Possible

  function Member(v: Json, key: string): Option<Json> {
    if v.Object? && key in v.members then Some(v.members[key]) else None
  }

  function AsString(v: Option<Json>): Option<string> {
    if v.Some? && v.value.Str? then Some(v.value.s) else None
  }

  function AsNat(v: Option<Json>): Option<nat> {
    if v.Some? && v.value.Num? && v.value.n.PosInt? then Some(v.value.n.u) else None
  }

  // ----- One expression ------------------------------------------------------------------

  const VERDICTS: seq<string> := ["accept", "drop", "reject", "return", "continue", "jump", "goto"]

  function VerdictFrom(expression: Json, names: seq<string>): Option<string> {
    if names == [] then None
    else match Member(expression, names[0])
         case Some(value) => Some(if value.Str? then names[0] + ":" + value.s else names[0])
         case None => VerdictFrom(expression, names[1..])
  }

  function ExtractVerdict(expression: Json): Option<string> {
    VerdictFrom(expression, VERDICTS)
  }

  predicate Harmless(key: string) {
    key == "counter" || key == "comment" || key == "log"
  }

  /** Expressions that never keep a packet from matching. */
  predicate IsNonPredicate(expression: Json) {
    || ExtractVerdict(expression).Some?
    || (expression.Object? && expression.members != map[]
        && forall key :: key in expression.members ==> Harmless(key))
  }

  /** What is asked of a field of the packet. */
  datatype Field = Payload(protocol: Option<string>, field: Option<string>) | OutInterface | OtherField

  function FieldOf(left: Json): Field {
    match Member(left, "payload")
    case Some(payload) => Payload(AsString(Member(payload, "protocol")), AsString(Member(payload, "field")))
    case None =>
      var meta := Member(left, "meta");
      if meta.Some? && AsString(Member(meta.value, "key")) == Some("oifname") then OutInterface else OtherField
  }

  /** Whether some address or route satisfies the match; `None` when the match is not understood. */
  function EvaluateMatch(matcher: Json, addresses: seq<Address>, routes: seq<RouteResult>,
                         parseIp: string -> Option<Ip>): Option<bool> {
    var left, right := Member(matcher, "left"), Member(matcher, "right");
    if AsString(Member(matcher, "op")) != Some("==") || left.None? || right.None? then None
    else match FieldOf(left.value)
         case Payload(protocol, Some(field)) =>
           if field == "daddr" then
             var text := AsString(right);
             var expected := if text.Some? then parseIp(text.value) else None;
             if expected.None? then None
             else if (protocol == Some("ip") && expected.value.V4?)
                     || (protocol == Some("ip6") && expected.value.V6?) then
               Some(exists a :: a in addresses && a.ip == expected.value)
             else if protocol == Some("ip") || protocol == Some("ip6") then Some(false)
             else None
           else if field == "dport" then
             var expected := AsNat(right);
             if expected.None? || expected.value >= 0x1_0000 then None
             else if protocol == Some("tcp") then Some(exists a :: a in addresses && a.port == expected.value)
             else if protocol == Some("udp") then Some(false)
             else None
           else None
         case Payload(_, None) => None
         case OutInterface =>
           var expected := AsString(right);
           if expected.None? then None
           else Some(exists r :: r in routes && r.interface == Some(expected.value))
         case OtherField => None
  }

  function FamilyApplicability(family: string, addresses: seq<Address>): Applicability {
    if family == "ip" && (exists a :: a in addresses && a.ip.V4?) then Exact
    else if family == "ip6" && (exists a :: a in addresses && a.ip.V6?) then Exact
    else if family == "ip" || family == "ip6" then No
    else if addresses == [] then No
    else if family == "inet" then Exact
    else Possible
  }

  // ----- One rule ------------------------------------------------------------------------

  /** `None` when the expression is not understood, otherwise whether it can hold. */
  function EvaluateExpression(expression: Json, addresses: seq<Address>, routes: seq<RouteResult>,
                              parseIp: string -> Option<Ip>): Option<bool> {
    match Member(expression, "match")
    case Some(matcher) => EvaluateMatch(matcher, addresses, routes, parseIp)
    case None => if IsNonPredicate(expression) then Some(true) else None
  }

  /** The applicability of a rule, regardless of the order of its expressions. */
  function RuleVerdict(family: string, expressions: seq<Json>, addresses: seq<Address>, routes: seq<RouteResult>,
                       parseIp: string -> Option<Ip>): Applicability {
    var f := FamilyApplicability(family, addresses);
    if f == No
       || (exists e :: e in expressions && EvaluateExpression(e, addresses, routes, parseIp) == Some(false)) then
      No
    else if f == Possible
            || (exists e :: e in expressions && EvaluateExpression(e, addresses, routes, parseIp) == None) then
      Possible
    else Exact
  }

  method RuleApplicability(family: string, expressions: seq<Json>, addresses: seq<Address>, routes: seq<RouteResult>,
                           parseIp: string -> Option<Ip>) returns (applicability: Applicability)
    ensures applicability == RuleVerdict(family, expressions, addresses, routes, parseIp)
  {
    hide EvaluateMatch, IsNonPredicate, FamilyApplicability;
    var f := FamilyApplicability(family, addresses);
    if f == No { return No; }
    var possible := f == Possible;
    for i := 0 to |expressions|
      invariant possible <==>
                || f == Possible
                || exists j :: 0 <= j < i && EvaluateExpression(expressions[j], addresses, routes, parseIp) == None
      invariant forall j :: 0 <= j < i ==> EvaluateExpression(expressions[j], addresses, routes, parseIp) != Some(false)
    {
      assert expressions[i] in expressions;
      var matcher := Member(expressions[i], "match");
      if matcher.None? {
        if !IsNonPredicate(expressions[i]) {
          possible := true;
        }
      } else {
        match EvaluateMatch(matcher.value, addresses, routes, parseIp) {
          case Some(false) => return No;
          case Some(true) =>
          case None => possible := true;
        }
      }
    }
    return if possible then Possible else Exact;
  }

  // ----- The whole listing ---------------------------------------------------------------

  datatype FirewallMatch = FirewallMatch(
    table: string, chain: string, handle: Option<nat>, verdict: string, exact: bool, comment: Option<string>)

  function NameIn(v: Json, key: string): string {
    match AsString(Member(v, key))
    case Some(s) => Sanitize(s)
    case None => "unknown"
  }

  function ChainKey(family: string, table: string, chain: string): string {
    family + "/" + table + "/" + chain
  }

  predicate IsBaseChain(chain: Json) {
    var hook := AsString(Member(chain, "hook"));
    hook == Some("output") || hook == Some("postrouting")
  }

  function ChainKeyOf(chain: Json): string {
    ChainKey(NameIn(chain, "family"), NameIn(chain, "table"), NameIn(chain, "name"))
  }

  predicate IsControlFlow(verdict: string) {
    verdict == "jump" || verdict == "goto" || verdict == "return" || verdict == "continue"
  }

  function FirstVerdict(expressions: seq<Json>): Option<string> {
    if expressions == [] then None
    else if ExtractVerdict(expressions[0]).Some? then ExtractVerdict(expressions[0])
    else FirstVerdict(expressions[1..])
  }

  function ExpressionsOf(rule: Json): seq<Json> {
    match Member(rule, "expr")
    case Some(Array(items)) => items
    case _ => []
  }

  /** The relevant base chain that an entry declares, if any. */
  function Declares(entry: Json): Option<string> {
    match Member(entry, "chain")
    case Some(chain) => if IsBaseChain(chain) then Some(ChainKeyOf(chain)) else None
    case None => None
  }

  /** The relevant base chains declared so far. */
  function Chains(entries: seq<Json>): set<string> {
    if entries == [] then {}
    else
      var before, declared := Chains(entries[..|entries| - 1]), Declares(entries[|entries| - 1]);
      if declared.Some? then before + {declared.value} else before
  }

  datatype Scope = Scope(addresses: seq<Address>, routes: seq<RouteResult>, parseIp: string -> Option<Ip>)

  /** What one entry contributes, given the base chains declared before it. */
  function EntryMatch(entry: Json, chains: set<string>, scope: Scope): Option<FirewallMatch> {
    match Member(entry, "chain")
    case Some(chain) =>
      var policy := AsString(Member(chain, "policy"));
      var family := NameIn(chain, "family");
      if IsBaseChain(chain) && policy.Some? && FamilyApplicability(family, scope.addresses) != No then
        Some(FirewallMatch(family + "/" + NameIn(chain, "table"), NameIn(chain, "name"), None,
                           "policy:" + policy.value, false, None))
      else None
    case None =>
      match Member(entry, "rule")
      case None => None
      case Some(rule) =>
        var family, table, chain := NameIn(rule, "family"), NameIn(rule, "table"), NameIn(rule, "chain");
        var expressions := ExpressionsOf(rule);
        var verdict := FirstVerdict(expressions);
        if ChainKey(family, table, chain) !in chains || verdict.None? then None
        else
          var applicability := RuleVerdict(family, expressions, scope.addresses, scope.routes, scope.parseIp);
          if applicability == No then None
          else
            var comment := AsString(Member(rule, "comment"));
            Some(FirewallMatch(family + "/" + table, chain, AsNat(Member(rule, "handle")), verdict.value,
                               applicability == Exact, if comment.Some? then Some(Sanitize(comment.value)) else None))
  }

  function IsRule(entry: Json): bool {
    Member(entry, "chain").None? && Member(entry, "rule").Some?
  }

  function Matches(entries: seq<Json>, scope: Scope): seq<FirewallMatch> {
    if entries == [] then []
    else
      var before, last := entries[..|entries| - 1], entries[|entries| - 1];
      var found := EntryMatch(last, Chains(before), scope);
      Matches(before, scope) + if found.Some? then [found.value] else []
  }

  function RuleCount(entries: seq<Json>): nat {
    if entries == [] then 0
    else RuleCount(entries[..|entries| - 1]) + if IsRule(entries[|entries| - 1]) then 1 else 0
  }

  /** A match that leaves the analysis inconclusive. */
  predicate Inconclusive(m: FirewallMatch) {
    !m.exact || IsControlFlow(m.verdict)
  }

  method ParseRuleset(entries: seq<Json>, scope: Scope)
    returns (chains: set<string>, matches: seq<FirewallMatch>, inspected: nat, incomplete: bool)
    ensures chains == Chains(entries)
    ensures matches == Matches(entries, scope)
    ensures inspected == RuleCount(entries)
    ensures incomplete <==> exists m :: m in matches && Inconclusive(m)
  {
    hide EntryMatch, Declares, IsRule, Inconclusive;
    chains, matches, inspected, incomplete := {}, [], 0, false;
    for i := 0 to |entries|
      invariant chains == Chains(entries[..i]) && matches == Matches(entries[..i], scope)
      invariant inspected == RuleCount(entries[..i])
      invariant incomplete <==> exists m :: m in matches && Inconclusive(m)
    {
      var entry := entries[i];
      assert entries[..i + 1][..i] == entries[..i];
      var found, openEnded := InspectEntry(entry, chains, scope);
      var declared := Declares(entry);
      if declared.Some? { chains := chains + {declared.value}; }
      if IsRule(entry) { inspected := inspected + 1; }
      if found.Some? {
        matches := matches + [found.value];
        incomplete := incomplete || openEnded;
      }
    }
    assert entries[..|entries|] == entries;
  }

  method InspectEntry(entry: Json, chains: set<string>, scope: Scope)
    returns (found: Option<FirewallMatch>, openEnded: bool)
    ensures found == EntryMatch(entry, chains, scope)
    ensures found.Some? ==> openEnded == Inconclusive(found.value)
  {
    found, openEnded := None, false;
    var chain := Member(entry, "chain");
    if chain.Some? {
      if IsBaseChain(chain.value) {
        var chainFamily, policy := NameIn(chain.value, "family"), AsString(Member(chain.value, "policy"));
        if policy.Some? && FamilyApplicability(chainFamily, scope.addresses) != No {
          openEnded := true;
          found := Some(FirewallMatch(chainFamily + "/" + NameIn(chain.value, "table"), NameIn(chain.value, "name"),
                                      None, "policy:" + policy.value, false, None));
        }
      }
      return;
    }
    var rule := Member(entry, "rule");
    if rule.None? { return; }
    var family, table, name := NameIn(rule.value, "family"), NameIn(rule.value, "table"), NameIn(rule.value, "chain");
    if ChainKey(family, table, name) !in chains { return; }
    var expressions := ExpressionsOf(rule.value);
    var verdict := FirstVerdict(expressions);
    if verdict.None? { return; }
    var applicability := RuleApplicability(family, expressions, scope.addresses, scope.routes, scope.parseIp);
    if applicability == No { return; }
    openEnded := applicability == Possible || IsControlFlow(verdict.value);
    var comment := AsString(Member(rule.value, "comment"));
    found := Some(FirewallMatch(family + "/" + table, name, AsNat(Member(rule.value, "handle")), verdict.value,
                                applicability == Exact, if comment.Some? then Some(Sanitize(comment.value)) else None));
  }

  datatype FirewallEvidence = FirewallEvidence(
    chains: set<string>, matches: seq<FirewallMatch>, inspected: nat, incomplete: bool)

  /** Analyse a parsed listing; a document without an `nftables` array is an error. */
  method ParseDocument(document: Json, scope: Scope) returns (evidence: Result<FirewallEvidence, ()>)
    ensures evidence.Ok? <==> Member(document, "nftables").Some? && Member(document, "nftables").value.Array?
    ensures evidence.Ok? ==>
              var entries := Member(document, "nftables").value.items;
              && evidence.value.chains == Chains(entries)
              && evidence.value.matches == Matches(entries, scope) && evidence.value.inspected == RuleCount(entries)
              && (evidence.value.incomplete <==> exists m :: m in evidence.value.matches && Inconclusive(m))
  {
    var listing := Member(document, "nftables");
    if listing.None? || !listing.value.Array? { return Err(()); }
    var chains, matches, inspected, incomplete := ParseRuleset(listing.value.items, scope);
    return Ok(FirewallEvidence(chains, matches, inspected, incomplete));
  }
}
