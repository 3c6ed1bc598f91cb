/** What the `truncated` flag of a comparison says about the two documents. */
module Truncation {
  import opened Wrappers
  import opened Sequences
  import opened Text
  import opened Json
  import opened Compare
  import opened DiffProperties
  import opened Comparison
  import opened ReportComparison

  // ----- The flag as a count -------------------------------------------------------------

  lemma {:induction false} OverrunsExactly(n: nat, steps: seq<Step>)
    requires n <= MAX_CHANGES
    ensures Overruns(n, steps) <==>
            || n + |Emitted(steps)| > MAX_CHANGES
            || (n + |Emitted(steps)| == MAX_CHANGES && steps != [] && steps[|steps| - 1].Visit?)
    decreases |steps|
  {
    if steps != [] {
      var n' := n + if steps[0].Emit? then 1 else 0;
      if n == MAX_CHANGES {
        if |Emitted(steps)| == 0 { NothingEmitted(steps); }
      } else {
        OverrunsExactly(n', steps[1..]);
      }
    }
  }

  lemma {:induction false} NothingEmitted(steps: seq<Step>)
    requires Emitted(steps) == [] && steps != []
    ensures steps[|steps| - 1].Visit?
  {
    if |steps| > 1 { NothingEmitted(steps[1..]); }
  }

  // ----- Which pairs are visited ---------------------------------------------------------

  /** The pair at `rest` below `at` differs, and so does every pair on the way, none of them ignored. */
  predicate Reached(at: Path, l: Option<Json>, r: Option<Json>, rest: Path)
    decreases |rest|
  {
    && !Volatile(at) && l.Some? && r.Some? && l != r
    && (rest != [] ==>
          && SameContainer(l.value, r.value)
          && Reached(at + [rest[0]], ChildOf(l, rest[0]), ChildOf(r, rest[0]), rest[1..]))
  }

  predicate ReachedAt(at: Path, l: Option<Json>, r: Option<Json>, p: Path) {
    at <= p && Reached(at, l, r, p[|at|..])
  }

  lemma ReachedBelow(at: Path, l: Json, r: Json, p: Path)
    requires SameContainer(l, r) && !Volatile(at) && l != r
    ensures ReachedAt(at, Some(l), Some(r), p) <==>
            || p == at
            || (|at| < |p| && at <= p && p[|at|] in Tokens(l, r)
                && ReachedAt(at + [p[|at|]], Child(l, p[|at|]), Child(r, p[|at|]), p))
  {
    hide Tokens;
    if |at| < |p| && at <= p {
      var t := p[|at|];
      var rest := p[|at|..];
      assert at + [t] <= p && rest[0] == t && rest[1..] == p[|at + [t]|..];
      TokensComplete(l, r, t);
      assert ReachedAt(at, Some(l), Some(r), p) ==
             Reached(at + [t], ChildOf(Some(l), t), ChildOf(Some(r), t), rest[1..]);
      assert p != at;
    } else if at <= p {
      assert p == at && p[|at|..] == [];
    }
  }

  lemma {:induction false} VisitExact(at: Path, l: Json, r: Json, p: Path)
    ensures Visit(p) in WalkPair(at, l, r) <==> ReachedAt(at, Some(l), Some(r), p)
    decreases l, 2, 0
  {
    if !Volatile(at) && l != r {
      if SameContainer(l, r) {
        VisitInTokens(at, Tokens(l, r), l, r, p);
        ReachedBelow(at, l, r, p);
      } else {
        assert at <= p && p[|at|..] == [] ==> p == at;
        assert at[|at|..] == [];
      }
    }
  }

  lemma {:induction false} VisitInTokens(at: Path, tokens: seq<string>, l: Json, r: Json, p: Path)
    ensures Visit(p) in WalkTokens(at, tokens, l, r) <==>
            && |at| < |p| && at <= p && p[|at|] in tokens
            && ReachedAt(at + [p[|at|]], Child(l, p[|at|]), Child(r, p[|at|]), p)
    decreases l, 1, |tokens|
  {
    hide ReachedAt;
    if tokens != [] {
      VisitInChild(at, tokens[0], l, r, p);
      VisitInTokens(at, tokens[1..], l, r, p);
      assert tokens == [tokens[0]] + tokens[1..];
    }
  }

  lemma {:induction false} VisitInChild(at: Path, t: string, l: Json, r: Json, p: Path)
    ensures Visit(p) in WalkChild(at, t, l, r) <==>
            && |at| < |p| && at <= p && p[|at|] == t
            && ReachedAt(at + [t], Child(l, t), Child(r, t), p)
    decreases l, 0, 0
  {
    if Child(l, t).Some? && Child(r, t).Some? {
      VisitExact(at + [t], Child(l, t).value, Child(r, t).value, p);
    }
    if at + [t] <= p { assert p[|at|] == (at + [t])[|at|] && at <= p; }
  }

  lemma {:induction false} ReachedMeaning(at: Path, l: Option<Json>, r: Option<Json>, rest: Path)
    ensures Reached(at, l, r, rest) <==>
            && (forall n :: 0 <= n <= |rest| ==> !Volatile(at + rest[..n]))
            && Find(l, rest).Some? && Find(r, rest).Some? && Find(l, rest) != Find(r, rest)
            && (forall n :: 0 <= n < |rest| ==> !Clash(Find(l, rest[..n]), Find(r, rest[..n])))
    decreases |rest|
  {
    assert at + rest[..0] == at;
    if rest != [] {
      var t, below := rest[0], rest[1..];
      ReachedMeaning(at + [t], ChildOf(l, t), ChildOf(r, t), below);
      forall n | 0 <= n <= |below|
        ensures at + rest[..n + 1] == at + [t] + below[..n]
        ensures Find(l, rest[..n + 1]) == Find(ChildOf(l, t), below[..n])
        ensures Find(r, rest[..n + 1]) == Find(ChildOf(r, t), below[..n])
      {
        assert rest[..n + 1][1..] == below[..n];
      }
      forall n | 0 < n <= |rest|
        ensures at + rest[..n] == at + [t] + below[..n - 1]
        ensures Find(l, rest[..n]) == Find(ChildOf(l, t), below[..n - 1])
        ensures Find(r, rest[..n]) == Find(ChildOf(r, t), below[..n - 1])
      {
        assert rest[..n][1..] == below[..n - 1];
      }
      NothingBelowNothing(below);
    }
  }

  // ----- The order of the traversal ------------------------------------------------------

  /** Members come in the order of their keys, items in the order of their indices. */
  predicate TokenBefore(v: Option<Json>, s: string, t: string) {
    if v.Some? && v.value.Object? then Less(s, t)
    else v.Some? && v.value.Array? && IsIndex(s) && IsIndex(t) && Value(s) < Value(t)
  }

  /** In the traversal of `v`, location `p` comes before `q`: a location before what is inside it. */
  predicate Earlier(v: Option<Json>, p: Path, q: Path)
    decreases |p|
  {
    && q != []
    && (p == [] || if p[0] == q[0] then Earlier(ChildOf(v, p[0]), p[1..], q[1..]) else TokenBefore(v, p[0], q[0]))
  }

  lemma {:induction false} EarlierIsStrict(v: Option<Json>, p: Path, q: Path)
    requires Earlier(v, p, q)
    ensures p != q && !Earlier(v, q, p)
    decreases |p|
  {
    if p != [] {
      if p[0] == q[0] {
        EarlierIsStrict(ChildOf(v, p[0]), p[1..], q[1..]);
      } else if Less(p[0], q[0]) && Less(q[0], p[0]) {
        LessTransitive(p[0], q[0], p[0]);
        LessIrreflexive(p[0]);
      }
    }
  }

  function PlaceOf(step: Step): Path {
    match step
    case Visit(at) => at
    case Emit(d) => d.at
  }

  predicate NotAfter(v: Option<Json>, at: Path, p: Path, q: Path) {
    && at <= p && at <= q
    && (p == q || Earlier(v, p[|at|..], q[|at|..]))
  }

  predicate Advancing(v: Option<Json>, at: Path, steps: seq<Step>) {
    && (forall s :: s in steps ==> at <= PlaceOf(s))
    && forall i, j :: 0 <= i < j < |steps| ==> NotAfter(v, at, PlaceOf(steps[i]), PlaceOf(steps[j]))
  }

  predicate Ordered(v: Option<Json>, tokens: seq<string>) {
    forall i, j :: 0 <= i < j < |tokens| ==> tokens[i] != tokens[j] && TokenBefore(v, tokens[i], tokens[j])
  }

  lemma TokensOrdered(l: Json, r: Json)
    requires SameContainer(l, r)
    ensures Ordered(Some(l), Tokens(l, r))
  {
    var ts := Tokens(l, r);
    TokensDistinct(l, r);
    if l.Array? {
      forall i | 0 <= i < |ts| ensures IsIndex(ts[i]) && Value(ts[i]) == i {
        DecimalParses(i);
      }
    }
  }

  lemma AdvancingConcat(v: Option<Json>, at: Path, a: seq<Step>, b: seq<Step>)
    requires Advancing(v, at, a) && Advancing(v, at, b)
    requires forall s, t :: s in a && t in b ==> NotAfter(v, at, PlaceOf(s), PlaceOf(t))
    ensures Advancing(v, at, a + b)
  {
    var steps := a + b;
    hide NotAfter;
    forall i, j | 0 <= i < j < |steps| ensures NotAfter(v, at, PlaceOf(steps[i]), PlaceOf(steps[j])) {
      if i < |a| && j >= |a| {
        assert steps[i] in a && steps[j] in b;
      } else if j < |a| {
        assert steps[i] == a[i] && steps[j] == a[j];
      } else {
        assert steps[i] == b[i - |a|] && steps[j] == b[j - |a|];
      }
    }
  }

  lemma {:induction false} PairAdvances(at: Path, l: Json, r: Json)
    ensures Advancing(Some(l), at, WalkPair(at, l, r))
    decreases l, 2, 0
  {
    if !Volatile(at) && l != r && SameContainer(l, r) {
      var tokens := Tokens(l, r);
      var below := WalkTokens(at, tokens, l, r);
      TokensOrdered(l, r);
      TokensAdvance(at, tokens, l, r);
      forall s | s in below ensures NotAfter(Some(l), at, at, PlaceOf(s)) {
        assert at[|at|..] == [];
      }
      AdvancingConcat(Some(l), at, [Visit(at)], below);
    }
  }

  /** The step is at or below one of the tokens. */
  predicate Under(at: Path, tokens: seq<string>, s: Step) {
    |at| < |PlaceOf(s)| && at <= PlaceOf(s) && PlaceOf(s)[|at|] in tokens
  }

  lemma {:induction false} TokensAdvance(at: Path, tokens: seq<string>, l: Json, r: Json)
    requires Ordered(Some(l), tokens)
    ensures Advancing(Some(l), at, WalkTokens(at, tokens, l, r))
    ensures forall s :: s in WalkTokens(at, tokens, l, r) ==> Under(at, tokens, s)
    decreases l, 1, |tokens|
  {
    hide TokenBefore;
    if tokens != [] {
      var t, rest := tokens[0], tokens[1..];
      ChildAdvances(at, t, l, r);
      TokensAdvance(at, rest, l, r);
      forall s, u | s in WalkChild(at, t, l, r) && u in WalkTokens(at, rest, l, r)
        ensures NotAfter(Some(l), at, PlaceOf(s), PlaceOf(u))
      {
        var p, q := PlaceOf(s)[|at|..], PlaceOf(u)[|at|..];
        assert p[0] == t && q[0] in rest;
      }
      AdvancingConcat(Some(l), at, WalkChild(at, t, l, r), WalkTokens(at, rest, l, r));
    }
  }

  lemma {:induction false} ChildAdvances(at: Path, t: string, l: Json, r: Json)
    ensures Advancing(Some(l), at, WalkChild(at, t, l, r))
    ensures forall s :: s in WalkChild(at, t, l, r) ==> Under(at, [t], s)
    decreases l, 0, 0
  {
    hide NotAfter;
    var here, steps := at + [t], WalkChild(at, t, l, r);
    if Child(l, t).Some? && Child(r, t).Some? {
      PairAdvances(here, Child(l, t).value, Child(r, t).value);
    }
    forall s | s in steps ensures here <= PlaceOf(s) && Under(at, [t], s) {
      assert here <= PlaceOf(s);
      assert PlaceOf(s)[|at|] == here[|at|];
    }
    forall i, j | 0 <= i < j < |steps| ensures NotAfter(Some(l), at, PlaceOf(steps[i]), PlaceOf(steps[j])) {
      NotAfterBelow(at, t, l, PlaceOf(steps[i]), PlaceOf(steps[j]));
    }
  }

  lemma NotAfterBelow(at: Path, t: string, l: Json, p: Path, q: Path)
    requires NotAfter(Child(l, t), at + [t], p, q)
    ensures NotAfter(Some(l), at, p, q)
  {
    assert p[|at|] == (at + [t])[|at|] && q[|at|] == (at + [t])[|at|];
    assert p[|at|..][1..] == p[|at + [t]|..] && q[|at|..][1..] == q[|at + [t]|..];
  }

  // ----- Ending in noise -----------------------------------------------------------------

  /**
    * The documents differ at this location, but only in volatile fields inside it; nothing around it is
    * ignored, or so different that its inside is not compared.
    */
  predicate VolatileOnly(l: Json, r: Json, p: Path) {
    && !Shielded(p) && (forall n :: 0 <= n < |p| ==> !ClashAt(l, r, p[..n]))
    && var x, y := Find(Some(l), p), Find(Some(r), p);
       x.Some? && y.Some? && x != y && Erase(p, x.value) == Erase(p, y.value)
  }

  /** Some such location comes after every difference in the order of the traversal. */
  ghost predicate EndsInNoise(l: Json, r: Json) {
    exists p :: VolatileOnly(l, r, p) && forall d :: d in Differences(l, r) ==> Earlier(Some(l), d.at, p)
  }

  predicate EndsInVisit(l: Json, r: Json) {
    var steps := WalkPair([], l, r);
    steps != [] && steps[|steps| - 1].Visit?
  }

  lemma {:induction false} LastVisitIsQuiet(at: Path, l: Json, r: Json, p: Path)
    requires WalkPair(at, l, r) != []
    requires WalkPair(at, l, r)[|WalkPair(at, l, r)| - 1] == Visit(p)
    ensures at <= p && QuietAt(at, l, r, p)
    decreases l, 1, 0
  {
    hide Erase, Tokens, WalkTokens, Volatile, QuietAt, Child;
    var tail := WalkTokens(at, Tokens(l, r), l, r);
    if tail == [] {
      assert p == at;
      QuietHere(at, l, r);
    } else {
      assert tail[|tail| - 1] == Visit(p);
      LastVisitInTokens(at, Tokens(l, r), l, r, p);
    }
  }

  lemma {:induction false} QuietHere(at: Path, l: Json, r: Json)
    requires !Volatile(at) && WalkPair(at, l, r) == [Visit(at)]
    ensures QuietAt(at, l, r, at)
  {
    hide Erase, WalkPair, Volatile;
    assert at[|at|..] == [];
    assert Emitted([Visit(at)]) == [];
    PairQuiet(at, l, r);
  }

  /** What the two sides have at `p` is the same once erased. */
  predicate QuietAt(at: Path, l: Json, r: Json, p: Path)
    requires at <= p
  {
    var x, y := Find(Some(l), p[|at|..]), Find(Some(r), p[|at|..]);
    x.Some? && y.Some? && Erase(p, x.value) == Erase(p, y.value)
  }

  lemma {:induction false} LastVisitInTokens(at: Path, tokens: seq<string>, l: Json, r: Json, p: Path)
    requires WalkTokens(at, tokens, l, r) != []
    requires WalkTokens(at, tokens, l, r)[|WalkTokens(at, tokens, l, r)| - 1] == Visit(p)
    ensures at <= p && QuietAt(at, l, r, p)
    decreases l, 0, |tokens|
  {
    hide Tokens, QuietAt, WalkPair;
    var t, rest := tokens[0], WalkTokens(at, tokens[1..], l, r);
    if rest != [] {
      assert rest[|rest| - 1] == Visit(p);
      LastVisitInTokens(at, tokens[1..], l, r, p);
    } else {
      assert WalkTokens(at, tokens, l, r) == WalkChild(at, t, l, r);
      LastVisitIsQuiet(at + [t], Child(l, t).value, Child(r, t).value, p);
      QuietBelow(at, t, l, r, p);
    }
  }

  lemma QuietBelow(at: Path, t: string, l: Json, r: Json, p: Path)
    requires at + [t] <= p && Child(l, t).Some? && Child(r, t).Some?
    ensures at <= p && QuietAt(at, l, r, p) == QuietAt(at + [t], Child(l, t).value, Child(r, t).value, p)
  {
    hide Erase, Child;
    assert p[|at|] == (at + [t])[|at|];
    assert p[|at|..][0] == t && p[|at|..][1..] == p[|at + [t]|..];
  }

  /** The visited locations that differ in volatile fields only. */
  lemma {:induction false} VolatileOnlyIsVisited(l: Json, r: Json, p: Path)
    ensures VolatileOnly(l, r, p) <==> Visit(p) in WalkPair([], l, r) && QuietAt([], l, r, p)
  {
    hide Erase, Reached, WalkPair, Clash, Volatile;
    VisitExact([], l, r, p);
    ReachedMeaning([], Some(l), Some(r), p);
    assert p[0..] == p;
    forall n | 0 <= n <= |p| ensures [] + p[..n] == p[..n] {}
  }

  lemma {:induction false} ClashIsNotQuiet(x: Json, y: Json, at: Path)
    requires Clash(Some(x), Some(y))
    ensures Erase(at, x) != Erase(at, y)
  {
  }

  /** The two descriptions of the end agree. */
  lemma EndsInNoiseIff(l: Json, r: Json)
    ensures EndsInNoise(l, r) <==> EndsInVisit(l, r)
  {
    hide Erase, WalkPair, VolatileOnly, Earlier;
    if EndsInVisit(l, r) {
      VisitAtEndIsNoise(l, r);
    }
    if EndsInNoise(l, r) {
      NoiseAtEndIsVisit(l, r);
    }
  }

  lemma {:induction false} EmittedMembers(steps: seq<Step>, d: Difference)
    ensures d in Emitted(steps) <==> Emit(d) in steps
  {
    if steps != [] {
      EmittedMembers(steps[1..], d);
      assert steps == [steps[0]] + steps[1..];
    }
  }

  lemma VisitAtEndIsNoise(l: Json, r: Json)
    requires EndsInVisit(l, r)
    ensures EndsInNoise(l, r)
  {
    hide Erase, WalkPair, Earlier, Clash, Shielded;
    var steps := WalkPair([], l, r);
    var last := |steps| - 1;
    var p := steps[last].at;
    LastVisitIsQuiet([], l, r, p);
    VolatileOnlyIsVisited(l, r, p);
    PairAdvances([], l, r);
    assert p[0..] == p;
    forall d | d in Differences(l, r) ensures Earlier(Some(l), d.at, p) {
      EmittedMembers(steps, d);
      var i :| 0 <= i < |steps| && steps[i] == Emit(d);
      assert NotAfter(Some(l), [], PlaceOf(steps[i]), PlaceOf(steps[last]));
      assert d.at[0..] == d.at;
      DifferencesExact(l, r, d);
      if d.at == p { ClashIsNotQuiet(Find(Some(l), p).value, Find(Some(r), p).value, p); }
    }
  }

  lemma NoiseAtEndIsVisit(l: Json, r: Json)
    requires EndsInNoise(l, r)
    ensures EndsInVisit(l, r)
  {
    hide Erase, WalkPair, Earlier, VolatileOnly, Advancing, QuietAt, Emitted;
    var steps := WalkPair([], l, r);
    var p :| VolatileOnly(l, r, p) && forall d :: d in Differences(l, r) ==> Earlier(Some(l), d.at, p);
    VolatileOnlyIsVisited(l, r, p);
    PairAdvances([], l, r);
    forall d ensures d in Differences(l, r) <==> Emit(d) in steps {
      EmittedMembers(steps, d);
    }
    LateVisitIsLast(Some(l), steps, p);
  }

  lemma {:induction false} LateVisitIsLast(v: Option<Json>, steps: seq<Step>, p: Path)
    requires Advancing(v, [], steps) && Visit(p) in steps
    requires forall d :: Emit(d) in steps ==> Earlier(v, d.at, p)
    ensures steps[|steps| - 1].Visit?
  {
    hide Earlier, Advancing;
    var k :| 0 <= k < |steps| && steps[k] == Visit(p);
    var last := steps[|steps| - 1];
    if last.Emit? {
      assert last == Emit(last.found);
      LaterIsNotEarlier(v, steps, k, |steps| - 1);
    }
  }

  /** What comes later in an advancing walk does not lie earlier. */
  lemma {:induction false} LaterIsNotEarlier(v: Option<Json>, steps: seq<Step>, i: nat, j: nat)
    requires i < j < |steps| && Advancing(v, [], steps)
    ensures !Earlier(v, PlaceOf(steps[j]), PlaceOf(steps[i]))
  {
    hide Earlier;
    var p, q := PlaceOf(steps[i]), PlaceOf(steps[j]);
    assert NotAfter(v, [], p, q);
    assert p[0..] == p && q[0..] == q;
    if Earlier(v, q, p) { EarlierIsStrict(v, q, p); }
  }

  /** `truncated` is set by more than 256 differences, or by volatile-only noise after exactly 256. */
  lemma TruncatedExactly(left: Json, right: Json)
    requires Compared(left, right).Ok?
    ensures Compared(left, right).value.truncated <==>
            || |Differences(left, right)| > MAX_CHANGES
            || (|Differences(left, right)| == MAX_CHANGES && EndsInNoise(left, right))
  {
    hide EndsInNoise, DescribeInput, WalkPair, Overruns, Emitted;
    OverrunsExactly(0, WalkPair([], left, right));
    EndsInNoiseIff(left, right);
  }

  /** So a comparison keeps every difference exactly when there are at most 256, truncated or not. */
  lemma NothingLostIff(left: Json, right: Json)
    requires Compared(left, right).Ok?
    ensures Compared(left, right).value.changes == Map(Render, Differences(left, right)) <==>
            |Differences(left, right)| <= MAX_CHANGES
    ensures !Compared(left, right).value.truncated ==> |Differences(left, right)| <= MAX_CHANGES
    ensures Compared(left, right).value.truncated ==> |Compared(left, right).value.changes| == MAX_CHANGES
  {
    hide DescribeInput, EndsInNoise, Differences;
    TruncatedExactly(left, right);
  }

  // ----- 256 differences, all kept, and a set flag ---------------------------------------

  /** What every accepted report holds, beside the member under `key`. */
  function Enveloped(key: string, value: Json): Json {
    Object(map[
      "kind" := Str("diagnostic_report"),
      "schema_version" := Num(PosInt(SCHEMA_VERSION)),
      "target" := Object(map["host" := Str("example.test")]),
      "request" := Object(map["execution_context" := Object(map["source" := Str("current_process")])])
    ][key := value])
  }

  predicate InEnvelope(key: string) {
    key == "kind" || key == "schema_version" || key == "target" || key == "request"
  }

  lemma EnvelopedIsAccepted(key: string, value: Json)
    requires !InEnvelope(key)
    ensures DescribeInput(Enveloped(key, value)) == Ok(InputSummary(SCHEMA_VERSION, "example.test", "current_process"))
  {
    var report := Enveloped(key, value);
    var target, request := report.members["target"], report.members["request"];
    var context := Object(map["source" := Str("current_process")]);
    assert target == Object(map["host" := Str("example.test")]);
    assert request == Object(map["execution_context" := context]);
    assert ["target", "original"][1..] == ["original"] && ["original"][1..] == [];
    assert ["target", "host"][1..] == ["host"] && ["host"][1..] == [];
    assert ["request", "execution_context", "source"][1..] == ["execution_context", "source"];
    assert ["execution_context", "source"][1..] == ["source"] && ["source"][1..] == [];
    assert Child(target, "original") == None && Child(target, "host") == Some(Str("example.test"));
    assert Child(request, "execution_context") == Some(context);
    assert Child(context, "source") == Some(Str("current_process"));
  }

  function Timed(duration: nat): Json {
    Object(map["duration_ms" := Num(PosInt(duration))])
  }

  /** `n` copies of one item, followed by an item that holds nothing but a duration. */
  function Attempts(n: nat, item: Json, duration: nat): Json {
    Array(seq(n, _ => item) + [Timed(duration)])
  }

  lemma {:induction false} DifferingItems(at: Path, n: nat, i: nat)
    requires i <= n
    ensures var l, r := Attempts(n, Null, 1), Attempts(n, Bool(true), 2);
            |Emitted(WalkTokens(at, Tokens(l, r)[..i], l, r))| == i
  {
    var l, r := Attempts(n, Null, 1), Attempts(n, Bool(true), 2);
    var ts := Tokens(l, r);
    if i > 0 {
      var here := at + [ts[i - 1]];
      DifferingItems(at, n, i - 1);
      WalkNextToken(at, ts, i - 1, l, r);
      EmittedConcat(WalkTokens(at, ts[..i - 1], l, r), WalkChild(at, ts[i - 1], l, r));
      ItemAt(l.items, i - 1);
      ItemAt(r.items, i - 1);
      IndexNotVolatile(at, i - 1);
      EmittedPair(here, Null, Bool(true));
    }
  }

  lemma {:induction false} TimedItemsVisited(at: Path)
    requires !Volatile(at)
    ensures WalkPair(at, Timed(1), Timed(2)) == [Visit(at)]
  {
    var l, r := Timed(1), Timed(2);
    assert l != r by { assert l.members["duration_ms"] != r.members["duration_ms"]; }
    assert Volatile(at + ["duration_ms"]);
    OneKeyWalk(at, l, r, "duration_ms");
  }

  lemma {:induction false} NoisyAttempts(at: Path, n: nat)
    requires !Volatile(at)
    ensures var l, r := Attempts(n, Null, 1), Attempts(n, Bool(true), 2);
            var steps := WalkPair(at, l, r);
            l != r && |Emitted(steps)| == n && steps != [] && steps[|steps| - 1].Visit?
  {
    hide Volatile, Overruns;
    var l, r := Attempts(n, Null, 1), Attempts(n, Bool(true), 2);
    var ts := Tokens(l, r);
    var last := at + [Decimal(n)];
    assert l.items[n] != r.items[n] by {
      assert l.items[n].members["duration_ms"] != r.items[n].members["duration_ms"];
    }
    DifferingItems(at, n, n);
    WalkNextToken(at, ts, n, l, r);
    EmittedConcat(WalkTokens(at, ts[..n], l, r), WalkChild(at, ts[n], l, r));
    assert ts[..n + 1] == ts;
    ItemAt(l.items, n);
    ItemAt(r.items, n);
    IndexNotVolatile(at, n);
    TimedItemsVisited(last);
    EmittedPair(last, Timed(1), Timed(2));
    EmittedPair(at, l, r);
    assert WalkChild(at, ts[n], l, r) == [Visit(last)];
    assert Emitted([Visit(last)]) == [];
  }

  lemma NoisyReports(key: string, n: nat)
    requires !Volatile([key]) && !InEnvelope(key)
    ensures var l, r := Enveloped(key, Attempts(n, Null, 1)), Enveloped(key, Attempts(n, Bool(true), 2));
            |Differences(l, r)| == n && EndsInVisit(l, r)
  {
    hide Attempts, Emitted, WalkTokens, Tokens;
    var la, ra := Attempts(n, Null, 1), Attempts(n, Bool(true), 2);
    var l, r := Enveloped(key, la), Enveloped(key, ra);
    assert [] + [key] == [key] && !Volatile([]);
    NoisyAttempts([key], n);
    assert l.members[key] == la && r.members[key] == ra;
    OneKeyWalk([], l, r, key);
    assert WalkChild([], key, l, r) == WalkPair([key], la, ra);
  }

  /** Two accepted reports with exactly 256 differences, all of them kept, and yet `truncated`. */
  lemma TruncatedWithoutLoss(key: string)
    requires !Volatile([key]) && !InEnvelope(key)
    ensures var l := Enveloped(key, Attempts(MAX_CHANGES, Null, 1));
            var r := Enveloped(key, Attempts(MAX_CHANGES, Bool(true), 2));
            && Compared(l, r).Ok? && Compared(l, r).value.truncated
            && |Differences(l, r)| == MAX_CHANGES
            && Compared(l, r).value.changes == Map(Render, Differences(l, r))
  {
    hide Enveloped, Attempts, Overruns, EndsInVisit, EndsInNoise, Differences, WalkPair, DescribeInput;
    var l, r := Enveloped(key, Attempts(MAX_CHANGES, Null, 1)), Enveloped(key, Attempts(MAX_CHANGES, Bool(true), 2));
    EnvelopedIsAccepted(key, Attempts(MAX_CHANGES, Null, 1));
    EnvelopedIsAccepted(key, Attempts(MAX_CHANGES, Bool(true), 2));
    NoisyReports(key, MAX_CHANGES);
    EndsInNoiseIff(l, r);
    TruncatedExactly(l, r);
    NothingLostIff(l, r);
  }
}
