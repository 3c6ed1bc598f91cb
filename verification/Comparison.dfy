/** The capped change log that the walk fills, and the comparison report built from it. */
module Comparison {
  import opened Wrappers
  import opened Sequences
  import opened Text
  import opened Json
  import opened Pointer
  import opened Compare

  const MAX_CHANGES: nat := 256
  const SCHEMA_VERSION: nat := 2

  datatype Significance = High | Medium | Low

  datatype Change = Change(path: string, significance: Significance, left: Json, right: Json)

  function SignificanceOf(path: string): Significance {
    if path == "/overall" || path == "/exit_code" || "/diagnosis/code" <= path
       || EndsWith(path, "/status") || EndsWith(path, "/error_kind") then High
    else if "/dns" <= path || "/routes" <= path || "/tcp" <= path
            || "/application_attempts" <= path || "/path_evidence" <= path
            || "/proxy_transport" <= path || "/plugins" <= path then Medium
    else Low
  }

  function OrNull(v: Option<Json>): Json {
    if v.Some? then v.value else Null
  }

  /** How a difference appears in the report. */
  function Render(d: Difference): Change {
    var path := PointerText(d.at);
    Change(if path == "" then "/" else path, SignificanceOf(path), OrNull(d.left), OrNull(d.right))
  }

  function CountHigh(changes: seq<Change>): nat {
    if changes == [] then 0
    else (if changes[0].significance == High then 1 else 0) + CountHigh(changes[1..])
  }

  // ----- What a capped log holds after a walk --------------------------------------------

  /** With `n` changes already kept, the walk goes on after the log is full. */
  predicate Overruns(n: nat, steps: seq<Step>)
    decreases |steps|
  {
    && steps != []
    && (n >= MAX_CHANGES || Overruns(n + if steps[0].Emit? then 1 else 0, steps[1..]))
  }

  lemma {:induction false} OverrunsConcat(n: nat, a: seq<Step>, b: seq<Step>)
    ensures Overruns(n, a + b) <==> Overruns(n, a) || Overruns(n + |Emitted(a)|, b)
    decreases |a|
  {
    if a == [] {
      assert a + b == b;
    } else {
      assert (a + b)[1..] == a[1..] + b;
      OverrunsConcat(n + if a[0].Emit? then 1 else 0, a[1..], b);
      if n >= MAX_CHANGES { FullOverruns(n + |Emitted(a)|, b); }
    }
  }

  lemma {:induction false} FullOverruns(n: nat, steps: seq<Step>)
    requires n >= MAX_CHANGES
    ensures Overruns(n, steps) <==> steps != []
  {
  }

  /** The log `after` is what `before` becomes by walking `steps`. */
  predicate Recorded(before: seq<Change>, cut: bool, steps: seq<Step>, after: seq<Change>, cutAfter: bool) {
    && after == Take(before + Map(Render, Emitted(steps)), MAX_CHANGES)
    && cutAfter == (cut || Overruns(|before|, steps))
  }

  lemma RecordedNothing(before: seq<Change>, cut: bool)
    requires |before| <= MAX_CHANGES
    ensures Recorded(before, cut, [], before, cut)
  {
    assert before + Map(Render, Emitted([])) == before;
  }

  lemma RecordedWhenFull(before: seq<Change>, cut: bool, steps: seq<Step>)
    requires |before| == MAX_CHANGES && steps != []
    ensures Recorded(before, cut, steps, before, true)
  {
    FullOverruns(|before|, steps);
  }

  lemma RecordedThen(before: seq<Change>, cut: bool, a: seq<Step>, mid: seq<Change>, cutMid: bool,
                     b: seq<Step>, after: seq<Change>, cutAfter: bool)
    requires |before| <= MAX_CHANGES
    requires Recorded(before, cut, a, mid, cutMid) && Recorded(mid, cutMid, b, after, cutAfter)
    ensures Recorded(before, cut, a + b, after, cutAfter)
  {
    EmittedConcat(a, b);
    MapConcat(Render, Emitted(a), Emitted(b));
    TakeTwice(before, Map(Render, Emitted(a)), Map(Render, Emitted(b)));
    OverrunsConcat(|before|, a, b);
    if |mid| == MAX_CHANGES {
      FullOverruns(|before| + |Emitted(a)|, b);
      FullOverruns(|mid|, b);
    }
  }

  lemma TakeTwice(before: seq<Change>, x: seq<Change>, y: seq<Change>)
    ensures Take(Take(before + x, MAX_CHANGES) + y, MAX_CHANGES) == Take(before + (x + y), MAX_CHANGES)
  {
    assert before + (x + y) == before + x + y;
  }

  lemma {:induction false} WalkTokensConcat(at: Path, a: seq<string>, b: seq<string>, l: Json, r: Json)
    ensures WalkTokens(at, a + b, l, r) == WalkTokens(at, a, l, r) + WalkTokens(at, b, l, r)
    decreases |a|
  {
    hide WalkChild;
    if a == [] {
      assert a + b == b;
    } else {
      var rest := a[1..];
      assert (a + b)[1..] == rest + b && (a + b)[0] == a[0];
      WalkTokensConcat(at, rest, b, l, r);
      var first := WalkChild(at, a[0], l, r);
      assert WalkTokens(at, a + b, l, r) == first + (WalkTokens(at, rest, l, r) + WalkTokens(at, b, l, r));
    }
  }

  lemma {:induction false} WalkNextToken(at: Path, tokens: seq<string>, i: nat, l: Json, r: Json)
    requires i < |tokens|
    ensures WalkTokens(at, tokens[..i + 1], l, r) ==
            WalkTokens(at, tokens[..i], l, r) + WalkChild(at, tokens[i], l, r)
  {
    assert tokens[..i + 1] == tokens[..i] + [tokens[i]];
    WalkTokensConcat(at, tokens[..i], [tokens[i]], l, r);
    assert WalkTokens(at, [tokens[i]], l, r) == WalkChild(at, tokens[i], l, r) + [];
  }

  class ChangeLog {
    var changes: seq<Change>
    var truncated: bool

    ghost predicate Valid()
      reads this
    {
      |changes| <= MAX_CHANGES && (truncated ==> |changes| == MAX_CHANGES)
    }

    constructor ()
      ensures Valid() && changes == [] && !truncated
    {
      changes := [];
      truncated := false;
    }

    method PushChange(path: string, left: Option<Json>, right: Option<Json>, ghost at: Path)
      requires Valid() && path == PointerText(at)
      modifies this
      ensures Valid()
      ensures Recorded(old(changes), old(truncated),
                       if Volatile(at) then [] else [Emit(Difference(at, left, right))], changes, truncated)
    {
      ghost var d := Difference(at, left, right);
      VolatileAgrees(at);
      RecordedNothing(changes, truncated);
      assert Emitted([Emit(d)]) == [d] + Emitted([]);
      if IsVolatilePath(path) {
        return;
      }
      if |changes| >= MAX_CHANGES {
        truncated := true;
        return;
      }
      assert Map(Render, [d]) == [Render(d)];
      changes := changes + [Change(if path == "" then "/" else path, SignificanceOf(path),
                                   OrNull(left), OrNull(right))];
    }

    method DiffValues(path: string, left: Json, right: Json, ghost at: Path)
      requires Valid() && path == PointerText(at)
      modifies this
      ensures Valid()
      ensures Recorded(old(changes), old(truncated), WalkPair(at, left, right), changes, truncated)
      decreases left, 1
    {
      hide Recorded, Overruns, WalkTokens;
      VolatileAgrees(at);
      RecordedNothing(changes, truncated);
      if IsVolatilePath(path) {
        return;
      }
      if left == right {
        return;
      }
      if |changes| >= MAX_CHANGES {
        RecordedWhenFull(changes, truncated, WalkPair(at, left, right));
        truncated := true;
        return;
      }
      ghost var c0, t0 := changes, truncated;
      VisitRecordsNothing(at, c0, t0);
      match (left, right) {
        case (Object(_), Object(_)) =>
          DiffObjects(path, left, right, at);
          RecordedThen(c0, t0, [Visit(at)], c0, t0,
                       WalkTokens(at, Tokens(left, right), left, right), changes, truncated);
        case (Array(_), Array(_)) =>
          DiffArrays(path, left, right, at);
          RecordedThen(c0, t0, [Visit(at)], c0, t0,
                       WalkTokens(at, Tokens(left, right), left, right), changes, truncated);
        case _ =>
          PushChange(path, Some(left), Some(right), at);
          ghost var emit := [Emit(Difference(at, Some(left), Some(right)))];
          assert WalkPair(at, left, right) == [Visit(at)] + emit;
          RecordedThen(c0, t0, [Visit(at)], c0, t0, emit, changes, truncated);
      }
    }

    method DiffObjects(path: string, left: Json, right: Json, ghost at: Path)
      requires Valid() && path == PointerText(at)
      requires left.Object? && right.Object?
      modifies this
      ensures Valid()
      ensures Recorded(old(changes), old(truncated), WalkTokens(at, Tokens(left, right), left, right),
                       changes, truncated)
      decreases left, 0, 1
    {
      hide Recorded, Overruns;
      ghost var c0, t0 := changes, truncated;
      var keys := SortedKeys(left.members.Keys + right.members.Keys);
      RecordedNothing(c0, t0);
      for i := 0 to |keys|
        invariant Valid()
        invariant Recorded(c0, t0, WalkTokens(at, keys[..i], left, right), changes, truncated)
      {
        ghost var c1, t1 := changes, truncated;
        assert keys[i] in keys;
        DiffMember(path, keys[i], left, right, at);
        WalkNextToken(at, keys, i, left, right);
        RecordedThen(c0, t0, WalkTokens(at, keys[..i], left, right), c1, t1,
                     WalkChild(at, keys[i], left, right), changes, truncated);
      }
      assert keys[..|keys|] == keys;
    }

    method DiffMember(path: string, key: string, left: Json, right: Json, ghost at: Path)
      requires Valid() && path == PointerText(at)
      requires left.Object? && right.Object? && (key in left.members || key in right.members)
      modifies this
      ensures Valid()
      ensures Recorded(old(changes), old(truncated), WalkChild(at, key, left, right), changes, truncated)
      decreases left, 0, 0
    {
      var childPath := path + "/" + Escape(key);
      PointerAppend(at, key);
      if key in left.members && key in right.members {
        DiffValues(childPath, left.members[key], right.members[key], at + [key]);
      } else {
        PushChange(childPath, Child(left, key), Child(right, key), at + [key]);
      }
    }

    method DiffArrays(path: string, left: Json, right: Json, ghost at: Path)
      requires Valid() && path == PointerText(at)
      requires left.Array? && right.Array?
      modifies this
      ensures Valid()
      ensures Recorded(old(changes), old(truncated), WalkTokens(at, Tokens(left, right), left, right),
                       changes, truncated)
      decreases left, 0, 1
    {
      hide Recorded, Overruns;
      ghost var c0, t0 := changes, truncated;
      var li, ri := left.items, right.items;
      var size := Max(|li|, |ri|);
      ghost var tokens := Indices(size);
      RecordedNothing(c0, t0);
      for index := 0 to size
        invariant Valid()
        invariant Recorded(c0, t0, WalkTokens(at, tokens[..index], left, right), changes, truncated)
      {
        ghost var c1, t1 := changes, truncated;
        var childPath := path + "/" + Decimal(index);
        ghost var below := at + [Decimal(index)];
        PointerAppend(at, Decimal(index));
        DecimalIsPlain(index);
        ItemAt(li, index);
        ItemAt(ri, index);
        if index < |li| && index < |ri| {
          DiffValues(childPath, li[index], ri[index], below);
        } else {
          PushChange(childPath, if index < |li| then Some(li[index]) else None,
                     if index < |ri| then Some(ri[index]) else None, below);
        }
        WalkNextToken(at, tokens, index, left, right);
        RecordedThen(c0, t0, WalkTokens(at, tokens[..index], left, right), c1, t1,
                     WalkChild(at, tokens[index], left, right), changes, truncated);
      }
      assert tokens[..size] == tokens;
    }
  }

  lemma VisitRecordsNothing(at: Path, c: seq<Change>, cut: bool)
    requires |c| < MAX_CHANGES
    ensures Recorded(c, cut, [Visit(at)], c, cut)
  {
    assert Emitted([Visit(at)]) == [];
    assert c + Map(Render, []) == c;
  }

  /** An index needs no escaping. */
  lemma {:induction false} DecimalIsPlain(n: nat)
    ensures Escape(Decimal(n)) == Decimal(n)
  {
    DecimalParses(n);
    EscapePlain(Decimal(n));
  }
}
