/** What an nftables listing is reported to hold, and what it leaves out. */
module NftListing {
  import opened Wrappers
  import opened Text
  import opened Json
  import opened Evidence
  import opened Nftables
  import opened NftSoundness

  // ----- Order and completeness ----------------------------------------------------------

  /** The order of the expressions of a rule does not matter. */
  lemma ExpressionOrderIrrelevant(family: string, a: seq<Json>, b: seq<Json>, addresses: seq<Address>,
                                  routes: seq<RouteResult>, parseIp: string -> Option<Ip>)
    requires multiset(a) == multiset(b)
    ensures RuleVerdict(family, a, addresses, routes, parseIp) == RuleVerdict(family, b, addresses, routes, parseIp)
  {
    hide EvaluateExpression, FamilyApplicability;
    forall e ensures e in a <==> e in b {
      assert e in multiset(a) <==> e in multiset(b);
    }
  }

  /** The listed matches are exactly the contributions of the entries, each judged by what precedes it. */
  lemma {:induction false} MatchesExact(entries: seq<Json>, scope: Scope, m: FirewallMatch)
    ensures m in Matches(entries, scope) <==>
            exists i :: 0 <= i < |entries| && EntryMatch(entries[i], Chains(entries[..i]), scope) == Some(m)
    decreases |entries|
  {
    hide EntryMatch, Chains;
    if entries != [] {
      var last := |entries| - 1;
      var before := entries[..last];
      MatchesExact(before, scope, m);
      assert forall i :: 0 <= i < last ==> before[..i] == entries[..i] && before[i] == entries[i];
    }
  }

  // ----- Control flow --------------------------------------------------------------------

  predicate Leaves(name: string) {
    name == "jump" || name == "goto" || name == "return" || name == "continue"
  }

  /** The expression hands the packet to another chain, or back. */
  predicate HandsOn(expression: Json) {
    NameOfVerdict(expression).Some? && Leaves(NameOfVerdict(expression).value)
  }

  /** The verdict comes with a string, such as the chain to jump to. */
  predicate HasTarget(expression: Json) {
    && NameOfVerdict(expression).Some?
    && AsString(Member(expression, NameOfVerdict(expression).value)).Some?
  }

  lemma TargetHidesName(name: string, target: string)
    ensures !IsControlFlow(name + ":" + target)
  {
    assert (name + ":" + target)[|name|] == ':';
  }

  /** The program notices control flow exactly when the verdict has no string beside its name. */
  lemma ControlFlowNoticedIff(expression: Json)
    requires ExtractVerdict(expression).Some?
    ensures IsControlFlow(ExtractVerdict(expression).value) <==> HandsOn(expression) && !HasTarget(expression)
  {
    hide IsControlFlow, Leaves, ExtractVerdict, NameOfVerdict;
    VerdictIs(expression);
    var name := NameOfVerdict(expression).value;
    match AsString(Member(expression, name))
    case Some(target) => TargetHidesName(name, target);
    case None => assert IsControlFlow(name) <==> Leaves(name) by { SameNames(name); }
  }

  lemma SameNames(name: string)
    ensures IsControlFlow(name) <==> Leaves(name)
  {
  }

  /** The expression that gives a rule its verdict. */
  function Deciding(expressions: seq<Json>): Option<Json> {
    if expressions == [] then None
    else if ExtractVerdict(expressions[0]).Some? then Some(expressions[0])
    else Deciding(expressions[1..])
  }

  lemma {:induction false} DecidingGivesVerdict(expressions: seq<Json>)
    ensures Deciding(expressions).Some? <==> FirstVerdict(expressions).Some?
    ensures Deciding(expressions).Some? ==>
              && Deciding(expressions).value in expressions
              && FirstVerdict(expressions) == ExtractVerdict(Deciding(expressions).value)
  {
    hide ExtractVerdict;
    if expressions != [] && ExtractVerdict(expressions[0]).None? { DecidingGivesVerdict(expressions[1..]); }
  }

  // ----- What a complete listing holds ---------------------------------------------------

  /** The answer about a rule of the listing. */
  function Answer(rule: Json, scope: Scope): Applicability {
    RuleVerdict(NameIn(rule, "family"), ExpressionsOf(rule), scope.addresses, scope.routes, scope.parseIp)
  }

  /** The match is that of an exact rule in one of the chains. */
  predicate ExactRuleMatch(entry: Json, chains: set<string>, scope: Scope, m: FirewallMatch) {
    && IsRule(entry) && m.table + "/" + m.chain in chains
    && var rule := Member(entry, "rule").value;
       && Deciding(ExpressionsOf(rule)).Some?
       && Answer(rule, scope) == Exact
  }

  /** What decides about the packet once the rule matches. */
  function DecidingIn(entry: Json): Option<Json> {
    match Member(entry, "rule")
    case Some(rule) => Deciding(ExpressionsOf(rule))
    case None => None
  }

  /** The rule hands the packet on, and the program notices. */
  predicate NoticedControl(entry: Json) {
    DecidingIn(entry).Some? && HandsOn(DecidingIn(entry).value) && !HasTarget(DecidingIn(entry).value)
  }

  /** A match is conclusive exactly when it is that of an exact rule without control flow that is noticed. */
  lemma ConclusiveIff(entry: Json, chains: set<string>, scope: Scope, m: FirewallMatch)
    requires EntryMatch(entry, chains, scope) == Some(m)
    ensures !Inconclusive(m) <==> ExactRuleMatch(entry, chains, scope, m) && !NoticedControl(entry)
  {
    hide ExtractVerdict, IsControlFlow, HandsOn, HasTarget;
    if IsRule(entry) {
      DecidingGivesVerdict(ExpressionsOf(Member(entry, "rule").value));
      ControlFlowNoticedIff(DecidingIn(entry).value);
    }
  }

  /**
    * A listing is not incomplete exactly when everything it reports is an exact rule in a relevant base chain
    * declared before it, and none of these rules hands the packet on without a string beside the verdict.
    */
  lemma {:induction false} CompleteIff(entries: seq<Json>, scope: Scope)
    ensures (forall m :: m in Matches(entries, scope) ==> !Inconclusive(m)) <==>
            forall i, m ::
              0 <= i < |entries| && EntryMatch(entries[i], Chains(entries[..i]), scope) == Some(m) ==>
                ExactRuleMatch(entries[i], Chains(entries[..i]), scope, m) && !NoticedControl(entries[i])
  {
    hide EntryMatch, Chains, Inconclusive, ExactRuleMatch, NoticedControl;
    forall i, m | 0 <= i < |entries| && EntryMatch(entries[i], Chains(entries[..i]), scope) == Some(m)
      ensures m in Matches(entries, scope)
      ensures !Inconclusive(m) <==>
              ExactRuleMatch(entries[i], Chains(entries[..i]), scope, m) && !NoticedControl(entries[i])
    {
      MatchesExact(entries, scope, m);
      ConclusiveIff(entries[i], Chains(entries[..i]), scope, m);
    }
    forall m | m in Matches(entries, scope)
      ensures exists i :: 0 <= i < |entries| && EntryMatch(entries[i], Chains(entries[..i]), scope) == Some(m)
    {
      MatchesExact(entries, scope, m);
    }
  }

  // ----- Control flow that is not noticed ------------------------------------------------

  /** Text that sanitizing leaves alone. */
  predicate Plain(s: string) {
    forall c :: c in s ==> !IsControl(c)
  }

  function ChainEntry(table: string, name: string): Json {
    Object(map["chain" := Object(map[
      "family" := Str("inet"), "table" := Str(table), "name" := Str(name), "hook" := Str("output")])])
  }

  function RuleEntry(table: string, name: string, expressions: seq<Json>): Json {
    Object(map["rule" := Object(map[
      "family" := Str("inet"), "table" := Str(table), "chain" := Str(name), "expr" := Array(expressions)])])
  }

  lemma NameIsKept(v: Json, key: string, name: string)
    requires Member(v, key) == Some(Str(name)) && Plain(name)
    ensures NameIn(v, key) == name
  {
    PlainIsUnchanged(name);
  }

  lemma InetIsPlain()
    ensures Plain("inet")
  {
  }

  lemma ChainIsDeclared(table: string, name: string)
    requires Plain(table) && Plain(name)
    ensures Declares(ChainEntry(table, name)) == Some(ChainKey("inet", table, name))
    ensures !IsRule(ChainEntry(table, name))
    ensures forall chains, scope :: EntryMatch(ChainEntry(table, name), chains, scope) == None
  {
    hide ChainKey, NameIn, Plain;
    var entry := ChainEntry(table, name);
    var chain := entry.members["chain"];
    assert Member(entry, "chain") == Some(chain);
    assert Member(chain, "family") == Some(Str("inet")) && Member(chain, "table") == Some(Str(table));
    assert Member(chain, "name") == Some(Str(name)) && Member(chain, "hook") == Some(Str("output"));
    assert Member(chain, "policy") == None;
    InetIsPlain();
    NameIsKept(chain, "family", "inet");
    NameIsKept(chain, "table", table);
    NameIsKept(chain, "name", name);
  }

  lemma RuleIsInChain(table: string, name: string, expressions: seq<Json>)
    requires Plain(table) && Plain(name)
    ensures var entry := RuleEntry(table, name, expressions);
            && IsRule(entry) && Member(entry, "chain") == None
            && var rule := Member(entry, "rule").value;
               && NameIn(rule, "family") == "inet" && NameIn(rule, "table") == table && NameIn(rule, "chain") == name
               && ExpressionsOf(rule) == expressions
  {
    hide NameIn, Plain;
    var entry := RuleEntry(table, name, expressions);
    var rule := entry.members["rule"];
    assert Member(entry, "rule") == Some(rule);
    assert Member(rule, "family") == Some(Str("inet")) && Member(rule, "table") == Some(Str(table));
    assert Member(rule, "chain") == Some(Str(name)) && Member(rule, "expr") == Some(Array(expressions));
    InetIsPlain();
    NameIsKept(rule, "family", "inet");
    NameIsKept(rule, "table", table);
    NameIsKept(rule, "chain", name);
  }

  /** A chain hooked into the output path, and one rule in it. */
  function ShortListing(table: string, name: string, expressions: seq<Json>): seq<Json> {
    [ChainEntry(table, name), RuleEntry(table, name, expressions)]
  }

  /** Such a listing reports what the rule contributes. */
  lemma {:induction false} ShortListingReports(table: string, name: string, expressions: seq<Json>, scope: Scope)
    requires Plain(table) && Plain(name)
    ensures var entries := ShortListing(table, name, expressions);
            var found := EntryMatch(entries[1], {ChainKey("inet", table, name)}, scope);
            Matches(entries, scope) == (if found.Some? then [found.value] else []) && RuleCount(entries) == 1
  {
    hide EntryMatch, Declares, IsRule, ChainEntry, RuleEntry, ChainKey, Plain;
    var entries, none: seq<Json> := ShortListing(table, name, expressions), [];
    var first := entries[0];
    ChainIsDeclared(table, name);
    RuleIsInChain(table, name, expressions);
    assert entries[..1] == [first] && [first][..0] == none;
    assert Chains(none) == {} && Matches(none, scope) == [] && RuleCount(none) == 0;
    assert Chains([first]) == {ChainKey("inet", table, name)};
    assert Matches([first], scope) == [];
  }

  function Jump(name: string, target: string): Json {
    Object(map[name := Str(target)])
  }

  lemma JumpIsVerdict(name: string, target: string)
    requires Leaves(name)
    ensures NameOfVerdict(Jump(name, target)) == Some(name)
    ensures ExtractVerdict(Jump(name, target)) == Some(name + ":" + target)
    ensures Member(Jump(name, target), "match") == None
  {
    VerdictIs(Jump(name, target));
    assert Member(Jump(name, target), name) == Some(Str(target));
  }

  /** A rule that jumps to a chain is reported as exact, and the listing as complete. */
  lemma {:induction false} JumpIsNotNoticed(table: string, name: string, verdict: string, target: string, scope: Scope)
    requires Plain(table) && Plain(name) && Leaves(verdict) && scope.addresses != []
    ensures var jump := Jump(verdict, target);
            var listed := Matches(ShortListing(table, name, [jump]), scope);
            && HandsOn(jump) && |listed| == 1
            && listed[0].verdict == verdict + ":" + target && listed[0].exact && !Inconclusive(listed[0])
  {
    hide Jump, ExtractVerdict, Leaves, ChainEntry, RuleEntry, IsControlFlow, ChainKey, Plain;
    var jump := Jump(verdict, target);
    JumpIsVerdict(verdict, target);
    RuleIsInChain(table, name, [jump]);
    ShortListingReports(table, name, [jump], scope);
    TargetHidesName(verdict, target);
    assert [jump][0] == jump && FirstVerdict([jump]) == Some(verdict + ":" + target);
    assert RuleVerdict("inet", [jump], scope.addresses, scope.routes, scope.parseIp) == Exact;
  }

  // ----- What the listing covers ---------------------------------------------------------

  /** Some possible flow satisfies the rule under some valuation. */
  ghost predicate MayApply(rule: Json, scope: Scope) {
    exists f: Flow, v: Valuation ::
      && PossibleFlow(f, scope.addresses, scope.routes)
      && RuleHolds(NameIn(rule, "family"), ExpressionsOf(rule), f, v, scope.parseIp)
  }

  /** The chain of the rule is a relevant base chain that was declared before it. */
  predicate InDeclaredChain(rule: Json, chains: set<string>) {
    ChainKey(NameIn(rule, "family"), NameIn(rule, "table"), NameIn(rule, "chain")) in chains
  }

  /** A rule is passed over exactly when its chain is not declared, it has no verdict, or the answer is `No`. */
  lemma PassedOverIff(entry: Json, chains: set<string>, scope: Scope)
    requires IsRule(entry)
    ensures EntryMatch(entry, chains, scope).None? <==>
            var rule := Member(entry, "rule").value;
            !InDeclaredChain(rule, chains) || DecidingIn(entry).None? || Answer(rule, scope) == No
  {
    hide ExtractVerdict, RuleVerdict;
    DecidingGivesVerdict(ExpressionsOf(Member(entry, "rule").value));
  }

  /**
    * With known interfaces and names for operands, every rule that gives a verdict in a declared chain and may
    * apply to the probed traffic is listed.
    */
  lemma EveryRuleThatMayApplyIsListed(entries: seq<Json>, i: nat, scope: Scope) returns (m: FirewallMatch)
    requires i < |entries| && IsRule(entries[i]) && InterfacesKnown(scope.routes)
    requires var rule := Member(entries[i], "rule").value;
             && InDeclaredChain(rule, Chains(entries[..i])) && DecidingIn(entries[i]).Some?
             && LiteralOperands(ExpressionsOf(rule), scope.parseIp) && MayApply(rule, scope)
    ensures EntryMatch(entries[i], Chains(entries[..i]), scope) == Some(m) && m in Matches(entries, scope)
  {
    hide EntryMatch, RuleVerdict, RuleHolds, LiteralOperands, Chains, InDeclaredChain, Matches;
    var rule := Member(entries[i], "rule").value;
    var f: Flow, v: Valuation :|
      && PossibleFlow(f, scope.addresses, scope.routes)
      && RuleHolds(NameIn(rule, "family"), ExpressionsOf(rule), f, v, scope.parseIp);
    if Answer(rule, scope) == No {
      NoIsSound(NameIn(rule, "family"), ExpressionsOf(rule), scope.addresses, scope.routes, scope.parseIp, f, v);
    }
    PassedOverIff(entries[i], Chains(entries[..i]), scope);
    m := EntryMatch(entries[i], Chains(entries[..i]), scope).value;
    MatchesExact(entries, scope, m);
  }

  /** A rule whose only statement is a verdict map is counted, and neither listed nor noticed. */
  lemma {:induction false} VerdictMapIsPassedOver(table: string, name: string, mapping: Json, scope: Scope)
    requires Plain(table) && Plain(name)
    ensures var entries := ShortListing(table, name, [Object(map["vmap" := mapping])]);
            Matches(entries, scope) == [] && RuleCount(entries) == 1
  {
    hide ChainEntry, RuleEntry, RuleVerdict, ChainKey, Plain;
    var e := Object(map["vmap" := mapping]);
    ShortListingReports(table, name, [e], scope);
    RuleIsInChain(table, name, [e]);
    VerdictIs(e);
    assert [e][0] == e && FirstVerdict([e]) == FirstVerdict([e][1..]);
  }
}
