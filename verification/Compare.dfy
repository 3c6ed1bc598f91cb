/** The structural comparison of two reports: what the walk over both documents meets. */
module Compare {
  import opened Wrappers
  import opened Json
  import opened Pointer

  // ----- Volatile fields -----------------------------------------------------------------

  predicate TimingField(field: string) {
    field == "duration_ms" || field == "handshake_ms"
  }

  predicate RunStamp(at: Path) {
    at == ["generated_at_unix_ms"] || at == ["tool", "version"]
  }

  /** Locations whose value changes from run to run. */
  predicate Volatile(at: Path) {
    RunStamp(at) || (at != [] && TimingField(at[|at| - 1]))
  }

  predicate IsRunStampPath(path: string) {
    path == "/generated_at_unix_ms" || path == "/tool/version"
  }

  predicate IsTimingSegment(segment: string) {
    segment == "duration_ms" || segment == "handshake_ms"
  }

  /** The same test as it is made on the text of a pointer. */
  predicate IsVolatilePath(path: string) {
    IsRunStampPath(path) || IsTimingSegment(LastSegment(path))
  }

  lemma {:induction false} PlainPointer(at: Path, token: string)
    requires '~' !in token && '/' !in token
    ensures PointerText(at + [token]) == PointerText(at) + "/" + token
  {
    EscapePlain(token);
    PointerAppend(at, token);
  }

  lemma {:induction false} IsField(at: Path, token: string, text: string)
    requires '~' !in token && '/' !in token
    requires text == "/" + token
    ensures PointerText(at) == text <==> at == [token]
  {
    PlainPointer([], token);
    assert [] + [token] == [token];
    if PointerText(at) == text { PointerInjective(at, [token]); }
  }

  lemma {:induction false} IsNestedField(at: Path, outer: string, inner: string, text: string)
    requires '~' !in outer && '/' !in outer && '~' !in inner && '/' !in inner
    requires text == "/" + outer + "/" + inner
    ensures PointerText(at) == text <==> at == [outer, inner]
  {
    PlainPointer([], outer);
    PlainPointer([outer], inner);
    assert [] + [outer] == [outer] && [outer] + [inner] == [outer, inner];
    if PointerText(at) == text { PointerInjective(at, [outer, inner]); }
  }

  lemma {:induction false} LastSegmentOfPointer(at: Path)
    requires at != []
    ensures LastSegment(PointerText(at)) == Escape(at[|at| - 1])
  {
    var front, last := at[..|at| - 1], at[|at| - 1];
    assert at == front + [last];
    PointerAppend(front, last);
    UnescapeEscape(last);
    LastSegmentIs(PointerText(front), Escape(last));
  }

  lemma EscapesTo(token: string, field: string)
    requires '~' !in field && '/' !in field
    ensures Escape(token) == field <==> token == field
  {
    EscapePlain(field);
    if Escape(token) == field { EscapeInjective(token, field); }
  }

  lemma {:induction false} RunStampAgrees(at: Path)
    ensures IsRunStampPath(PointerText(at)) <==> RunStamp(at)
  {
    assert PointerText(at) == "/generated_at_unix_ms" <==> at == ["generated_at_unix_ms"] by {
      IsField(at, "generated_at_unix_ms", "/generated_at_unix_ms");
    }
    assert PointerText(at) == "/tool/version" <==> at == ["tool", "version"] by {
      IsNestedField(at, "tool", "version", "/tool/version");
    }
  }

  lemma TimingAgrees(token: string)
    ensures IsTimingSegment(Escape(token)) <==> TimingField(token)
  {
    assert Escape(token) == "duration_ms" <==> token == "duration_ms" by {
      EscapesTo(token, "duration_ms");
    }
    assert Escape(token) == "handshake_ms" <==> token == "handshake_ms" by {
      EscapesTo(token, "handshake_ms");
    }
  }

  /** The test on pointer text sees exactly the volatile locations, whatever the keys contain. */
  lemma {:induction false} VolatileAgrees(at: Path)
    ensures IsVolatilePath(PointerText(at)) <==> Volatile(at)
  {
    RunStampAgrees(at);
    if at != [] {
      LastSegmentOfPointer(at);
      TimingAgrees(at[|at| - 1]);
    }
  }

  // ----- The walk ------------------------------------------------------------------------

  /** One recorded difference; an absent value is kept apart from a null one. */
  datatype Difference = Difference(at: Path, left: Option<Json>, right: Option<Json>)

  /** The walk stops at every unequal pair it may not ignore, and emits where it cannot descend. */
  datatype Step = Visit(at: Path) | Emit(found: Difference)

  function WalkPair(at: Path, l: Json, r: Json): seq<Step>
    decreases l, 2, 0
  {
    if Volatile(at) || l == r then []
    else if SameContainer(l, r) then [Visit(at)] + WalkTokens(at, Tokens(l, r), l, r)
    else [Visit(at), Emit(Difference(at, Some(l), Some(r)))]
  }

  function WalkTokens(at: Path, tokens: seq<string>, l: Json, r: Json): seq<Step>
    decreases l, 1, |tokens|
  {
    if tokens == [] then []
    else WalkChild(at, tokens[0], l, r) + WalkTokens(at, tokens[1..], l, r)
  }

  function WalkChild(at: Path, token: string, l: Json, r: Json): seq<Step>
    decreases l, 0, 0
  {
    match (Child(l, token), Child(r, token))
    case (Some(cl), Some(cr)) => WalkPair(at + [token], cl, cr)
    case (cl, cr) => if Volatile(at + [token]) then [] else [Emit(Difference(at + [token], cl, cr))]
  }

  function Emitted(steps: seq<Step>): seq<Difference> {
    if steps == [] then []
    else (if steps[0].Emit? then [steps[0].found] else []) + Emitted(steps[1..])
  }

  /** The differences between two documents, uncapped and in traversal order. */
  function Differences(l: Json, r: Json): seq<Difference> {
    Emitted(WalkPair([], l, r))
  }

  lemma {:induction false} EmittedConcat(a: seq<Step>, b: seq<Step>)
    ensures Emitted(a + b) == Emitted(a) + Emitted(b)
  {
    if a == [] {
      assert a + b == b;
    } else {
      var rest := a[1..];
      assert (a + b)[1..] == rest + b && (a + b)[0] == a[0];
      EmittedConcat(rest, b);
      var first := if a[0].Emit? then [a[0].found] else [];
      assert Emitted(a) == first + Emitted(rest);
      assert Emitted(a + b) == first + (Emitted(rest) + Emitted(b));
    }
  }

  lemma {:induction false} EmittedPair(at: Path, l: Json, r: Json)
    ensures Emitted(WalkPair(at, l, r)) ==
            if Volatile(at) || l == r then []
            else if SameContainer(l, r) then Emitted(WalkTokens(at, Tokens(l, r), l, r))
            else [Difference(at, Some(l), Some(r))]
  {
    if !Volatile(at) && l != r {
      if SameContainer(l, r) {
        EmittedConcat([Visit(at)], WalkTokens(at, Tokens(l, r), l, r));
      } else {
        var d := Difference(at, Some(l), Some(r));
        assert [Visit(at), Emit(d)] == [Visit(at)] + [Emit(d)];
        EmittedConcat([Visit(at)], [Emit(d)]);
      }
    }
  }

  lemma {:induction false} EmittedTokens(at: Path, tokens: seq<string>, l: Json, r: Json)
    requires tokens != []
    ensures Emitted(WalkTokens(at, tokens, l, r)) ==
            Emitted(WalkChild(at, tokens[0], l, r)) + Emitted(WalkTokens(at, tokens[1..], l, r))
  {
    EmittedConcat(WalkChild(at, tokens[0], l, r), WalkTokens(at, tokens[1..], l, r));
  }

  // ----- Exactly which locations differ --------------------------------------------------

  /** The two sides disagree here in a way that no deeper location can express. */
  predicate Clash(l: Option<Json>, r: Option<Json>) {
    l != r && !(l.Some? && r.Some? && SameContainer(l.value, r.value))
  }

  /** `rest`, below `at`, is the first clash on its way down, with nothing volatile above it. */
  predicate FirstClash(at: Path, l: Option<Json>, r: Option<Json>, rest: Path)
    decreases |rest|
  {
    && !Volatile(at)
    && if rest == [] then Clash(l, r)
       else !Clash(l, r) && FirstClash(at + [rest[0]], ChildOf(l, rest[0]), ChildOf(r, rest[0]), rest[1..])
  }

  lemma {:induction false} NoClashInEqual(at: Path, v: Option<Json>, rest: Path)
    ensures !FirstClash(at, v, v, rest)
    decreases |rest|
  {
    if rest != [] {
      NoClashInEqual(at + [rest[0]], ChildOf(v, rest[0]), rest[1..]);
    }
  }

  /** `d` records the first clash on its path, with what each side has there. */
  predicate Records(at: Path, l: Option<Json>, r: Option<Json>, d: Difference) {
    && at <= d.at
    && var rest := d.at[|at|..];
       FirstClash(at, l, r, rest) && d.left == Find(l, rest) && d.right == Find(r, rest)
  }

  lemma RecordsBelow(at: Path, l: Json, r: Json, d: Difference)
    requires SameContainer(l, r) && !Volatile(at)
    ensures Records(at, Some(l), Some(r), d) <==>
            && |at| < |d.at| && at <= d.at
            && var t := d.at[|at|];
               t in Tokens(l, r) && Records(at + [t], Child(l, t), Child(r, t), d)
  {
    hide Tokens;
    if |at| < |d.at| && at <= d.at {
      var t := d.at[|at|];
      assert at + [t] <= d.at;
      assert d.at[|at|..][1..] == d.at[|at + [t]|..];
      TokensComplete(l, r, t);
      if t !in Tokens(l, r) {
        NoClashInEqual(at + [t], None, d.at[|at + [t]|..]);
      }
    }
  }

  lemma {:induction false} PairExact(at: Path, l: Json, r: Json, d: Difference)
    ensures d in Emitted(WalkPair(at, l, r)) <==> Records(at, Some(l), Some(r), d)
    decreases l, 2, 0
  {
    EmittedPair(at, l, r);
    if Volatile(at) {
    } else if l == r {
      if at <= d.at { NoClashInEqual(at, Some(l), d.at[|at|..]); }
    } else if SameContainer(l, r) {
      forall t | t in Tokens(l, r) ensures Child(l, t).Some? || Child(r, t).Some? {
        TokensComplete(l, r, t);
      }
      TokensExact(at, Tokens(l, r), l, r, d);
      RecordsBelow(at, l, r, d);
    } else {
      if Records(at, Some(l), Some(r), d) {
        assert d.at == at;
      }
      assert at[|at|..] == [];
    }
  }

  lemma {:induction false} TokensExact(at: Path, tokens: seq<string>, l: Json, r: Json, d: Difference)
    requires forall t :: t in tokens ==> Child(l, t).Some? || Child(r, t).Some?
    ensures d in Emitted(WalkTokens(at, tokens, l, r)) <==>
            && |at| < |d.at| && at <= d.at
            && var t := d.at[|at|];
               t in tokens && Records(at + [t], Child(l, t), Child(r, t), d)
    decreases l, 1, |tokens|
  {
    if tokens != [] {
      var t := tokens[0];
      EmittedTokens(at, tokens, l, r);
      ChildExact(at, t, l, r, d);
      TokensExact(at, tokens[1..], l, r, d);
      if at + [t] <= d.at { assert d.at[|at|] == t; assert at <= d.at; }
    }
  }

  lemma {:induction false} ChildExact(at: Path, token: string, l: Json, r: Json, d: Difference)
    requires Child(l, token).Some? || Child(r, token).Some?
    ensures d in Emitted(WalkChild(at, token, l, r)) <==>
            Records(at + [token], Child(l, token), Child(r, token), d)
    decreases l, 0, 0
  {
    var here, cl, cr := at + [token], Child(l, token), Child(r, token);
    if cl.Some? && cr.Some? {
      PairExact(here, cl.value, cr.value, d);
    } else {
      assert here[|here|..] == [];
      if Records(here, cl, cr, d) {
        assert d.at == here;
      }
    }
  }
}
