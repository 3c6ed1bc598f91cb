/** What the uncapped list of differences says about the two documents. */
module DiffProperties {
  import opened Wrappers
  import opened Sequences
  import opened Text
  import opened Json
  import opened Compare

  // ----- Which locations are listed ------------------------------------------------------

  /** Some enclosing location is ignored. */
  predicate Shielded(at: Path) {
    exists n :: 0 <= n <= |at| && Volatile(at[..n])
  }

  /** The documents disagree at this location, and not merely below it. */
  predicate ClashAt(l: Json, r: Json, at: Path) {
    Clash(Find(Some(l), at), Find(Some(r), at))
  }

  /** The outermost disagreement on its path. */
  predicate Outermost(l: Json, r: Json, at: Path) {
    ClashAt(l, r, at) && forall n :: 0 <= n < |at| ==> !ClashAt(l, r, at[..n])
  }

  lemma {:induction false} FirstClashMeaning(at: Path, l: Option<Json>, r: Option<Json>, rest: Path)
    ensures FirstClash(at, l, r, rest) <==>
            && (forall n :: 0 <= n <= |rest| ==> !Volatile(at + rest[..n]))
            && Clash(Find(l, rest), Find(r, rest))
            && (forall n :: 0 <= n < |rest| ==> !Clash(Find(l, rest[..n]), Find(r, rest[..n])))
    decreases |rest|
  {
    assert at + rest[..0] == at;
    if rest != [] {
      var t, below := rest[0], rest[1..];
      FirstClashMeaning(at + [t], ChildOf(l, t), ChildOf(r, t), below);
      forall n | 0 <= n <= |below|
        ensures rest[..n + 1] == [t] + below[..n] && at + rest[..n + 1] == at + [t] + below[..n]
        ensures Find(l, rest[..n + 1]) == Find(ChildOf(l, t), below[..n])
        ensures Find(r, rest[..n + 1]) == Find(ChildOf(r, t), below[..n])
      {
        assert ([t] + below[..n])[1..] == below[..n];
      }
      forall n | 1 <= n <= |rest|
        ensures at + rest[..n] == at + [t] + below[..n - 1]
        ensures Find(l, rest[..n]) == Find(ChildOf(l, t), below[..n - 1])
        ensures Find(r, rest[..n]) == Find(ChildOf(r, t), below[..n - 1])
      {
        assert rest[..n][1..] == below[..n - 1];
      }
    }
  }

  /** Exactly the outermost unshielded disagreements are listed, with what each side has there. */
  lemma {:induction false} DifferencesExact(l: Json, r: Json, d: Difference)
    ensures d in Differences(l, r) <==>
            && !Shielded(d.at) && Outermost(l, r, d.at)
            && d.left == Find(Some(l), d.at) && d.right == Find(Some(r), d.at)
  {
    hide FirstClash, WalkPair;
    PairExact([], l, r, d);
    FirstClashMeaning([], Some(l), Some(r), d.at);
    assert d.at[0..] == d.at;
    assert forall n :: 0 <= n <= |d.at| ==> [] + d.at[..n] == d.at[..n];
  }

  // ----- No location is listed twice, none lies inside another ---------------------------

  lemma {:induction false} PairDistinct(at: Path, l: Json, r: Json)
    ensures Distinct(Emitted(WalkPair(at, l, r)))
    decreases l, 2, 0
  {
    EmittedPair(at, l, r);
    if SameContainer(l, r) && l != r && !Volatile(at) {
      TokensDistinct(l, r);
      forall t | t in Tokens(l, r) ensures Child(l, t).Some? || Child(r, t).Some? {
        TokensComplete(l, r, t);
      }
      TokensListDistinct(at, Tokens(l, r), l, r);
    }
  }

  lemma {:induction false} TokensListDistinct(at: Path, tokens: seq<string>, l: Json, r: Json)
    requires Distinct(tokens)
    requires forall t :: t in tokens ==> Child(l, t).Some? || Child(r, t).Some?
    ensures Distinct(Emitted(WalkTokens(at, tokens, l, r)))
    decreases l, 1, |tokens|
  {
    if tokens != [] {
      var t, rest := tokens[0], tokens[1..];
      EmittedTokens(at, tokens, l, r);
      TokensListDistinct(at, rest, l, r);
      var first, others := Emitted(WalkChild(at, t, l, r)), Emitted(WalkTokens(at, rest, l, r));
      assert Distinct(first) by {
        match (Child(l, t), Child(r, t))
        case (Some(cl), Some(cr)) => PairDistinct(at + [t], cl, cr);
        case _ =>
      }
      forall d | d in first ensures d !in others {
        ChildExact(at, t, l, r, d);
        TokensExact(at, rest, l, r, d);
      }
      assert forall i, j :: 0 <= i < |first| && 0 <= j < |others| ==> first[i] in first && others[j] in others;
    }
  }

  lemma OutermostUnique(l: Json, r: Json, a: Path, b: Path)
    requires Outermost(l, r, a) && Outermost(l, r, b) && a <= b
    ensures a == b
  {
    assert b[..|a|] == a;
  }

  /** Listed locations are pairwise incomparable: equal never, enclosing never. */
  lemma DifferencesAntichain(l: Json, r: Json, i: nat, j: nat)
    requires i < |Differences(l, r)| && j < |Differences(l, r)| && i != j
    ensures !(Differences(l, r)[i].at <= Differences(l, r)[j].at)
  {
    var ds := Differences(l, r);
    PairDistinct([], l, r);
    DifferencesExact(l, r, ds[i]);
    DifferencesExact(l, r, ds[j]);
    assert ds[i].at != ds[j].at;
    if ds[i].at <= ds[j].at {
      OutermostUnique(l, r, ds[i].at, ds[j].at);
    }
  }

  lemma {:induction false} FirstOnTheWay(l: Json, r: Json, at: Path) returns (n: nat)
    requires ClashAt(l, r, at)
    ensures n <= |at| && Outermost(l, r, at[..n])
    decreases |at|
  {
    if Outermost(l, r, at) {
      n := |at|;
      assert at[..n] == at;
    } else {
      var k :| 0 <= k < |at| && ClashAt(l, r, at[..k]);
      n := FirstOnTheWay(l, r, at[..k]);
      assert at[..k][..n] == at[..n];
    }
  }

  /** Every unshielded disagreement is covered by exactly one listed difference. */
  lemma EveryDisagreementCoveredOnce(l: Json, r: Json, at: Path) returns (i: nat)
    requires ClashAt(l, r, at) && !Shielded(at)
    ensures i < |Differences(l, r)| && Differences(l, r)[i].at <= at
    ensures forall j :: 0 <= j < |Differences(l, r)| && Differences(l, r)[j].at <= at ==> j == i
  {
    var ds := Differences(l, r);
    var n := FirstOnTheWay(l, r, at);
    var d := Difference(at[..n], Find(Some(l), at[..n]), Find(Some(r), at[..n]));
    forall k | 0 <= k <= n ensures !Volatile(d.at[..k]) {
      assert d.at[..k] == at[..k];
    }
    DifferencesExact(l, r, d);
    i :| 0 <= i < |ds| && ds[i] == d;
    forall j | 0 <= j < |ds| && ds[j].at <= at ensures j == i {
      PrefixesComparable(ds[i].at, ds[j].at, at);
      if j != i {
        DifferencesAntichain(l, r, i, j);
        DifferencesAntichain(l, r, j, i);
      }
    }
  }

  lemma PrefixesComparable(a: Path, b: Path, whole: Path)
    requires a <= whole && b <= whole
    ensures a <= b || b <= a
  {
    assert a == whole[..|a|] && b == whole[..|b|];
  }

  // ----- When nothing is listed ----------------------------------------------------------

  /** A document without its volatile fields, at any depth. */
  function Erase(at: Path, v: Json): Json
    decreases v
  {
    match v
    case Object(members) =>
      Object(map k | k in members && !Volatile(at + [k]) :: Erase(at + [k], members[k]))
    case Array(items) =>
      Array(seq(|items|, i requires 0 <= i < |items| => Erase(at + [Decimal(i)], items[i])))
    case _ => v
  }

  lemma {:induction false} IndexNotVolatile(at: Path, i: nat)
    ensures !Volatile(at + [Decimal(i)])
  {
    DecimalParses(i);
    assert (at + [Decimal(i)])[|at|] == Decimal(i);
    assert !IsDigit("duration_ms"[0]) && !IsDigit("handshake_ms"[0]);
    assert !IsDigit("generated_at_unix_ms"[0]) && !IsDigit("version"[0]);
  }

  lemma {:induction false} ErasedChild(at: Path, v: Json, token: string)
    ensures Child(Erase(at, v), token) ==
            match Child(v, token)
            case Some(c) => if v.Object? && Volatile(at + [token]) then None else Some(Erase(at + [token], c))
            case None => None
  {
    if v.Array? && ParseIndex(token).Some? {
      ParsedIsDecimal(token);
    }
  }

  /** What the walk compares at one child, erased. */
  predicate SameErased(at: Path, token: string, l: Json, r: Json) {
    || Volatile(at + [token])
    || match (Child(l, token), Child(r, token))
       case (Some(cl), Some(cr)) => Erase(at + [token], cl) == Erase(at + [token], cr)
       case (None, None) => true
       case _ => false
  }

  lemma {:induction false} ErasedChildrenAgree(at: Path, l: Json, r: Json)
    requires SameContainer(l, r)
    ensures Erase(at, l) == Erase(at, r) <==> forall t :: t in Tokens(l, r) ==> SameErased(at, t, l, r)
  {
    var el, er := Erase(at, l), Erase(at, r);
    forall t ensures SameErased(at, t, l, r) <==> Child(el, t) == Child(er, t) {
      ErasedChild(at, l, t);
      ErasedChild(at, r, t);
      if l.Array? && ParseIndex(t).Some? {
        ParsedIsDecimal(t);
        IndexNotVolatile(at, Value(t));
      }
    }
    if forall t :: t in Tokens(l, r) ==> SameErased(at, t, l, r) {
      forall t ensures Child(el, t) == Child(er, t) {
        TokensComplete(l, r, t);
      }
      SameChildren(el, er);
    }
  }

  lemma {:induction false} SameItem(l: Json, r: Json, i: nat)
    requires l.Array? && r.Array?
    requires Child(l, Decimal(i)) == Child(r, Decimal(i))
    ensures i < |l.items| <==> i < |r.items|
    ensures i < |l.items| && i < |r.items| ==> l.items[i] == r.items[i]
  {
    ItemAt(l.items, i);
    ItemAt(r.items, i);
  }

  /** Two containers of one kind are determined by their children. */
  lemma SameChildren(l: Json, r: Json)
    requires SameContainer(l, r)
    requires forall t :: Child(l, t) == Child(r, t)
    ensures l == r
  {
    if l.Object? {
      forall t ensures t in l.members <==> t in r.members {
        assert Child(l, t) == Child(r, t);
      }
      forall t | t in l.members ensures l.members[t] == r.members[t] {
        assert Child(l, t) == Child(r, t);
      }
      assert l.members == r.members;
    } else {
      SameItem(l, r, |l.items|);
      SameItem(l, r, |r.items|);
      forall i | 0 <= i < |l.items| ensures i < |r.items| && l.items[i] == r.items[i] {
        SameItem(l, r, i);
      }
      assert l.items == r.items;
    }
  }

  lemma {:induction false} PairQuiet(at: Path, l: Json, r: Json)
    requires !Volatile(at)
    ensures Emitted(WalkPair(at, l, r)) == [] <==> Erase(at, l) == Erase(at, r)
    decreases l, 2, 0
  {
    EmittedPair(at, l, r);
    if l != r && SameContainer(l, r) {
      forall t | t in Tokens(l, r) ensures Child(l, t).Some? || Child(r, t).Some? {
        TokensComplete(l, r, t);
      }
      TokensQuiet(at, Tokens(l, r), l, r);
      ErasedChildrenAgree(at, l, r);
    }
  }

  lemma {:induction false} TokensQuiet(at: Path, tokens: seq<string>, l: Json, r: Json)
    requires forall t :: t in tokens ==> Child(l, t).Some? || Child(r, t).Some?
    ensures Emitted(WalkTokens(at, tokens, l, r)) == [] <==>
            forall t :: t in tokens ==> SameErased(at, t, l, r)
    decreases l, 1, |tokens|
  {
    if tokens != [] {
      var t := tokens[0];
      EmittedTokens(at, tokens, l, r);
      TokensQuiet(at, tokens[1..], l, r);
      assert Emitted(WalkChild(at, t, l, r)) == [] <==> SameErased(at, t, l, r) by {
        if !Volatile(at + [t]) && Child(l, t).Some? && Child(r, t).Some? {
          PairQuiet(at + [t], Child(l, t).value, Child(r, t).value);
        }
      }
    }
  }

  /** Nothing is listed exactly when the documents agree once volatile fields are erased. */
  lemma {:induction false} NoDifferencesIffErasedEqual(l: Json, r: Json)
    ensures Differences(l, r) == [] <==> Erase([], l) == Erase([], r)
  {
    PairQuiet([], l, r);
  }

  // ----- Swapping the two documents ------------------------------------------------------

  function Swap(d: Difference): Difference {
    Difference(d.at, d.right, d.left)
  }

  function SwapStep(s: Step): Step {
    match s
    case Visit(_) => s
    case Emit(d) => Emit(Swap(d))
  }

  lemma TokensSymmetric(l: Json, r: Json)
    requires SameContainer(l, r)
    ensures Tokens(l, r) == Tokens(r, l)
  {
    if l.Object? {
      assert l.members.Keys + r.members.Keys == r.members.Keys + l.members.Keys;
    }
  }

  lemma {:induction false} WalkPairMirrored(at: Path, l: Json, r: Json)
    ensures WalkPair(at, r, l) == Map(SwapStep, WalkPair(at, l, r))
    decreases l, 2, 0
  {
    if l != r && !Volatile(at) && SameContainer(l, r) {
      TokensSymmetric(l, r);
      WalkTokensMirrored(at, Tokens(l, r), l, r);
      MapConcat(SwapStep, [Visit(at)], WalkTokens(at, Tokens(l, r), l, r));
    }
  }

  lemma {:induction false} WalkTokensMirrored(at: Path, tokens: seq<string>, l: Json, r: Json)
    ensures WalkTokens(at, tokens, r, l) == Map(SwapStep, WalkTokens(at, tokens, l, r))
    decreases l, 1, |tokens|
  {
    hide WalkChild;
    if tokens != [] {
      WalkChildMirrored(at, tokens[0], l, r);
      WalkTokensMirrored(at, tokens[1..], l, r);
      MapConcat(SwapStep, WalkChild(at, tokens[0], l, r), WalkTokens(at, tokens[1..], l, r));
    }
  }

  lemma {:induction false} WalkChildMirrored(at: Path, token: string, l: Json, r: Json)
    ensures WalkChild(at, token, r, l) == Map(SwapStep, WalkChild(at, token, l, r))
    decreases l, 0, 0
  {
    if Child(l, token).Some? && Child(r, token).Some? {
      WalkPairMirrored(at + [token], Child(l, token).value, Child(r, token).value);
    }
  }

  lemma {:induction false} EmittedMirrored(steps: seq<Step>)
    ensures Emitted(Map(SwapStep, steps)) == Map(Swap, Emitted(steps))
  {
    if steps != [] {
      EmittedMirrored(steps[1..]);
      assert Map(SwapStep, steps)[1..] == Map(SwapStep, steps[1..]);
    }
  }

  /** Swapping the documents swaps the sides of every difference and nothing else. */
  lemma DifferencesMirrored(l: Json, r: Json)
    ensures Differences(r, l) == Map(Swap, Differences(l, r))
  {
    WalkPairMirrored([], l, r);
    EmittedMirrored(WalkPair([], l, r));
  }
}
