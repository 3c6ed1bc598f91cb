/** Comparing two report documents: the envelope checks, the verdict and what `truncated` means. */
module ReportComparison {
  import opened Wrappers
  import opened Sequences
  import opened Json
  import opened Pointer
  import opened Compare
  import opened DiffProperties
  import opened Comparison
  import opened Significance

  datatype Overall = Pass | Warn

  datatype Problem =
    | NotADiagnosticReport
    | NoSchemaVersion
    | UnsupportedVersion(version: nat)
    | NoTarget
    | NoExecutionContext

  datatype InputSummary = InputSummary(version: nat, target: string, executionContext: string)

  datatype ComparisonReport = ComparisonReport(
    left: InputSummary, right: InputSummary, overall: Overall, exitCode: nat,
    changes: seq<Change>, significant: nat, truncated: bool)

  function StringOf(v: Option<Json>): Option<string> {
    if v.Some? && v.value.Str? then Some(v.value.s) else None
  }

  function DescribeInput(value: Json): Result<InputSummary, Problem> {
    var kind := if value.Object? then Child(value, "kind") else None;
    var version := if value.Object? then Child(value, "schema_version") else None;
    var original := StringOf(Find(Some(value), ["target", "original"]));
    var host := StringOf(Find(Some(value), ["target", "host"]));
    var source := StringOf(Find(Some(value), ["request", "execution_context", "source"]));
    if StringOf(kind) != Some("diagnostic_report") then Err(NotADiagnosticReport)
    else if !(version.Some? && version.value.Num? && version.value.n.PosInt?) then Err(NoSchemaVersion)
    else if !(1 <= version.value.n.u <= SCHEMA_VERSION) then Err(UnsupportedVersion(version.value.n.u))
    else if original.None? && host.None? then Err(NoTarget)
    else if source.None? then Err(NoExecutionContext)
    else Ok(InputSummary(version.value.n.u, if original.Some? then original.value else host.value, source.value))
  }

  predicate HoldsText(v: Json, at: Path, text: string) {
    Find(Some(v), at) == Some(Str(text))
  }

  predicate HoldsSomeText(v: Json, at: Path) {
    Find(Some(v), at).Some? && Find(Some(v), at).value.Str?
  }

  /**
    * A document is accepted, as what, exactly if it is an object that holds at these locations the kind, a version
    * 1 or 2, a target (as it was given, or else its host) and the source of its execution context.
    */
  lemma {:induction false} AcceptedIff(v: Json, summary: InputSummary)
    ensures DescribeInput(v) == Ok(summary) <==>
            && v.Object? && HoldsText(v, ["kind"], "diagnostic_report")
            && Find(Some(v), ["schema_version"]) == Some(Num(PosInt(summary.version)))
            && (summary.version == 1 || summary.version == 2)
            && HoldsText(v, if HoldsSomeText(v, ["target", "original"]) then ["target", "original"]
                            else ["target", "host"], summary.target)
            && HoldsText(v, ["request", "execution_context", "source"], summary.executionContext)
  {
    FoundAtTop(v, "kind");
    FoundAtTop(v, "schema_version");
  }

  lemma {:induction false} FoundAtTop(v: Json, key: string)
    ensures Find(Some(v), [key]) == Child(v, key)
  {
    assert [key][1..] == [];
  }

  /** Which shortcoming is reported: the first in the order kind, version, range, target, execution context. */
  lemma {:induction false} RefusedBecause(v: Json)
    requires DescribeInput(v).Err?
    ensures var isReport := v.Object? && HoldsText(v, ["kind"], "diagnostic_report");
            var version := Find(Some(v), ["schema_version"]);
            match DescribeInput(v).error
            case NotADiagnosticReport => !isReport
            case NoSchemaVersion => isReport && forall n :: version != Some(Num(PosInt(n)))
            case UnsupportedVersion(n) => isReport && version == Some(Num(PosInt(n))) && (n == 0 || n > 2)
            case NoTarget =>
              && isReport && (version == Some(Num(PosInt(1))) || version == Some(Num(PosInt(2))))
              && !HoldsSomeText(v, ["target", "original"]) && !HoldsSomeText(v, ["target", "host"])
            case NoExecutionContext =>
              && isReport && (version == Some(Num(PosInt(1))) || version == Some(Num(PosInt(2))))
              && (HoldsSomeText(v, ["target", "original"]) || HoldsSomeText(v, ["target", "host"]))
              && !HoldsSomeText(v, ["request", "execution_context", "source"])
  {
    FoundAtTop(v, "kind");
    FoundAtTop(v, "schema_version");
  }

  /** The outcome in terms of the uncapped differences and of the traversal. */
  function Compared(left: Json, right: Json): Result<ComparisonReport, Problem> {
    match (DescribeInput(left), DescribeInput(right))
    case (Err(problem), _) => Err(problem)
    case (_, Err(problem)) => Err(problem)
    case (Ok(l), Ok(r)) =>
      var differences := Differences(left, right);
      var changes := Take(Map(Render, differences), MAX_CHANGES);
      Ok(ComparisonReport(l, r, if differences == [] then Pass else Warn, 0, changes, CountHigh(changes),
                          Overruns(0, WalkPair([], left, right))))
  }

  /** Compare two parsed documents; reading and parsing the files happens before. */
  method CompareReports(left: Json, right: Json) returns (result: Result<ComparisonReport, Problem>)
    ensures result == Compared(left, right)
    ensures result.Ok? <==> DescribeInput(left).Ok? && DescribeInput(right).Ok?
    ensures DescribeInput(left).Err? ==> result == Err(DescribeInput(left).error)
    ensures DescribeInput(left).Ok? && DescribeInput(right).Err? ==> result == Err(DescribeInput(right).error)
    ensures result.Ok? ==>
              && left.Object? && right.Object?
              && result.value.left == DescribeInput(left).value
              && result.value.right == DescribeInput(right).value
    ensures result.Ok? ==> (result.value.overall == Pass <==> Erase([], left) == Erase([], right))
    ensures result.Ok? ==> result.value.exitCode == 0
    ensures result.Ok? ==> result.value.changes == Take(Map(Render, Differences(left, right)), 256)
    ensures result.Ok? ==>
              RatedByLocation(result.value.changes, result.value.significant, Differences(left, right))
    ensures result.Ok? ==> result.value.truncated == Overruns(0, WalkPair([], left, right))
  {
    var leftInput := DescribeInput(left);
    if leftInput.Err? { return Err(leftInput.error); }
    var rightInput := DescribeInput(right);
    if rightInput.Err? { return Err(rightInput.error); }
    var log := new ChangeLog();
    log.DiffValues("", left, right, []);
    assert [] + Map(Render, Differences(left, right)) == Map(Render, Differences(left, right));
    NoDifferencesIffErasedEqual(left, right);
    KeptAreRated(Differences(left, right), log.changes);
    result := Ok(ComparisonReport(leftInput.value, rightInput.value, if log.changes == [] then Pass else Warn, 0,
                                  log.changes, CountHigh(log.changes), log.truncated));
  }

  // ----- The paths of an object-rooted comparison ----------------------------------------

  /** A reported path decodes to the location, where the reported values are found. */
  lemma {:induction false} ReportedPathDecodes(left: Json, right: Json, d: Difference)
    requires left.Object? && right.Object? && d in Differences(left, right)
    ensures Decode(Render(d).path) == d.at
    ensures Render(d).left == OrNull(Find(Some(left), d.at)) && Render(d).right == OrNull(Find(Some(right), d.at))
  {
    DifferencesExact(left, right, d);
    assert d.at != [];
    DecodePointer(d.at);
  }

  /** Reported paths are pairwise distinct, and none locates a value inside another. */
  lemma ReportedPathsIndependent(left: Json, right: Json, i: nat, j: nat)
    requires left.Object? && right.Object?
    requires i < |Differences(left, right)| && j < |Differences(left, right)| && i != j
    ensures var ds := Differences(left, right);
            Render(ds[i]).path != Render(ds[j]).path && !(Decode(Render(ds[i]).path) <= Decode(Render(ds[j]).path))
  {
    var ds := Differences(left, right);
    ReportedPathDecodes(left, right, ds[i]);
    ReportedPathDecodes(left, right, ds[j]);
    DifferencesAntichain(left, right, i, j);
  }

  /** The two recorded values coincide exactly when one side lacks what the other holds as null. */
  lemma SidesCoincideIff(left: Json, right: Json, d: Difference)
    requires d in Differences(left, right)
    ensures Render(d).left == Render(d).right <==>
            (d.left == None && d.right == Some(Null)) || (d.left == Some(Null) && d.right == None)
  {
    DifferencesExact(left, right, d);
  }

  /** Two objects that agree except under one key. */
  predicate DifferUnder(left: Json, right: Json, key: string) {
    && left.Object? && right.Object? && left != right
    && forall t :: t in left.members.Keys + right.members.Keys && t != key ==> Child(left, t) == Child(right, t)
  }

  lemma {:induction false} OneTokenWalk(at: Path, tokens: seq<string>, left: Json, right: Json, key: string)
    requires Distinct(tokens)
    requires forall t :: t in tokens && t != key ==> Child(left, t).Some? && Child(left, t) == Child(right, t)
    ensures WalkTokens(at, tokens, left, right) == if key in tokens then WalkChild(at, key, left, right) else []
  {
    if tokens != [] {
      var t, rest := tokens[0], tokens[1..];
      assert tokens == [t] + rest;
      OneTokenWalk(at, rest, left, right, key);
      if t == key {
        assert key !in rest;
        assert WalkChild(at, t, left, right) + [] == WalkChild(at, t, left, right);
      } else {
        assert WalkChild(at, t, left, right) == [];
      }
    }
  }

  lemma KeyDiffers(left: Json, right: Json, key: string)
    requires DifferUnder(left, right, key)
    ensures key in left.members.Keys + right.members.Keys
  {
    if key !in left.members.Keys + right.members.Keys {
      forall t ensures Child(left, t) == Child(right, t) {
        assert t in left.members.Keys + right.members.Keys || (Child(left, t) == None && Child(right, t) == None);
      }
      SameChildren(left, right);
    }
  }

  /** Such objects are compared under that key alone. */
  lemma {:induction false} OneKeyWalk(at: Path, left: Json, right: Json, key: string)
    requires DifferUnder(left, right, key) && !Volatile(at)
    ensures WalkPair(at, left, right) == [Visit(at)] + WalkChild(at, key, left, right)
    ensures Emitted(WalkPair(at, left, right)) == Emitted(WalkChild(at, key, left, right))
  {
    var tokens := Tokens(left, right);
    KeyDiffers(left, right, key);
    TokensDistinct(left, right);
    forall t | t in tokens && t != key ensures Child(left, t).Some? && Child(left, t) == Child(right, t) {
      TokensComplete(left, right, t);
    }
    OneTokenWalk(at, tokens, left, right, key);
    EmittedPair(at, left, right);
  }

  /** Adding a null member leaves a report acceptable. */
  lemma NullMemberIsAccepted(left: Json, key: string)
    requires left.Object? && DescribeInput(left).Ok? && key !in left.members
    ensures DescribeInput(Object(left.members[key := Null])) == DescribeInput(left)
  {
    var right := Object(left.members[key := Null]);
    forall t, rest: Path | t in left.members ensures Find(Some(right), [t] + rest) == Find(Some(left), [t] + rest) {
      assert ([t] + rest)[1..] == rest;
    }
    assert ["target", "original"] == ["target"] + ["original"];
    assert ["target", "host"] == ["target"] + ["host"];
    assert ["request", "execution_context", "source"] == ["request"] + ["execution_context", "source"];
    AbsentHasNothing(left, "target", ["original"]);
    AbsentHasNothing(left, "target", ["host"]);
    AbsentHasNothing(left, "request", ["execution_context", "source"]);
  }

  lemma {:induction false} AbsentHasNothing(v: Json, token: string, rest: Path)
    ensures Child(v, token) == None ==> Find(Some(v), [token] + rest) == None
  {
    assert ([token] + rest)[1..] == rest;
    NothingBelowNothing(rest);
  }

  lemma {:induction false} NothingBelowNothing(at: Path)
    ensures Find(None, at) == None
  {
    if at != [] { NothingBelowNothing(at[1..]); }
  }

  /** Any accepted report against itself with one more null member: a single change, null on both sides. */
  lemma MissingAndNullLookAlike(left: Json, key: string)
    requires left.Object? && DescribeInput(left).Ok? && key !in left.members && !Volatile([key])
    ensures var right := Object(left.members[key := Null]);
            && Differences(left, right) == [Difference([key], None, Some(Null))]
            && Compared(left, right).Ok? && |Compared(left, right).value.changes| == 1
            && var change := Compared(left, right).value.changes[0];
               change.path == PointerText([key]) && change.left == change.right == Null
  {
    hide DescribeInput, Overruns, Emitted, WalkPair, SignificanceOf, PointerText, CountHigh;
    NullMemberIsAccepted(left, key);
    OneNullMember(left, key);
    DecodePointer([key]);
  }

  lemma OneNullMember(left: Json, key: string)
    requires left.Object? && key !in left.members && !Volatile([key])
    ensures Differences(left, Object(left.members[key := Null])) == [Difference([key], None, Some(Null))]
  {
    var right, d := Object(left.members[key := Null]), Difference([key], None, Some(Null));
    assert left != right by { assert key in right.members; }
    assert DifferUnder(left, right, key);
    assert !Volatile([]) && [] + [key] == [key];
    OneKeyWalk([], left, right, key);
    assert Emitted([Emit(d)]) == [d] + Emitted([]);
  }

  // ----- Swapping the inputs -------------------------------------------------------------

  /** `truncated` is the same whichever report comes first. */
  lemma {:induction false} OverrunsMirrored(n: nat, steps: seq<Step>)
    ensures Overruns(n, Map(SwapStep, steps)) == Overruns(n, steps)
    decreases |steps|
  {
    if steps != [] {
      assert Map(SwapStep, steps)[1..] == Map(SwapStep, steps[1..]);
      OverrunsMirrored(n + if steps[0].Emit? then 1 else 0, steps[1..]);
    }
  }

  function SwapChange(c: Change): Change {
    Change(c.path, c.significance, c.right, c.left)
  }

  /** Swapping the inputs keeps paths, significance and `truncated`, and swaps the sides. */
  lemma {:induction false} ComparisonMirrored(left: Json, right: Json)
    ensures Take(Map(Render, Differences(right, left)), MAX_CHANGES) ==
            Map(SwapChange, Take(Map(Render, Differences(left, right)), MAX_CHANGES))
    ensures Overruns(0, WalkPair([], right, left)) == Overruns(0, WalkPair([], left, right))
  {
    hide WalkPair, Emitted, Overruns;
    DifferencesMirrored(left, right);
    WalkPairMirrored([], left, right);
    OverrunsMirrored(0, WalkPair([], left, right));
  }
}
