/** Small facts about sequences used by more than one component. */
module Sequences {

  ghost predicate Distinct<T>(s: seq<T>) {
    forall i, j :: 0 <= i < j < |s| ==> s[i] != s[j]
  }

  function Map<A, B>(f: A -> B, s: seq<A>): (t: seq<B>)
    ensures |t| == |s|
    ensures forall i :: 0 <= i < |s| ==> t[i] == f(s[i])
  {
    seq(|s|, i requires 0 <= i < |s| => f(s[i]))
  }

  lemma MapConcat<A, B>(f: A -> B, a: seq<A>, b: seq<A>)
    ensures Map(f, a + b) == Map(f, a) + Map(f, b)
  {
  }

  function Min(a: int, b: int): int {
    if a < b then a else b
  }

  function Max(a: int, b: int): int {
    if a < b then b else a
  }

  /** The first `n` elements, or all of them when there are fewer. */
  function Take<T>(s: seq<T>, n: nat): seq<T> {
    s[..Min(|s|, n)]
  }

  predicate EndsWith<T(==)>(s: seq<T>, t: seq<T>) {
    |t| <= |s| && s[|s| - |t|..] == t
  }

  /** Keep the first occurrence of every element that is not already in `seen`, in order. */
  function FirstOccurrences<T(==, !new)>(seen: seq<T>, s: seq<T>): (r: seq<T>)
    ensures forall x :: x in r <==> x in s && x !in seen
    decreases |s|
  {
    if s == [] then []
    else
      var before, last := FirstOccurrences(seen, s[..|s| - 1]), s[|s| - 1];
      if last in seen || last in before then before else before + [last]
  }

  lemma {:induction false} FirstOccurrencesNext<T(!new)>(seen: seq<T>, s: seq<T>, x: T)
    ensures FirstOccurrences(seen, s + [x]) ==
            if x in seen || x in s then FirstOccurrences(seen, s) else FirstOccurrences(seen, s) + [x]
  {
    assert (s + [x])[..|s|] == s;
  }

  lemma {:induction false} FirstOccurrencesConcat<T(!new)>(seen: seq<T>, a: seq<T>, b: seq<T>)
    ensures FirstOccurrences(seen, a + b) ==
            FirstOccurrences(seen, a) + FirstOccurrences(seen + FirstOccurrences(seen, a), b)
    decreases |b|
  {
    var kept := FirstOccurrences(seen, a);
    if b == [] {
      assert a + b == a;
      assert FirstOccurrences(seen + kept, b) == [];
    } else {
      var front, x := b[..|b| - 1], b[|b| - 1];
      assert b == front + [x];
      FirstOccurrencesConcat(seen, a, front);
      ConcatStep(seen, a, front, x);
    }
  }

  lemma {:induction false} ConcatStep<T(!new)>(seen: seq<T>, a: seq<T>, front: seq<T>, x: T)
    requires FirstOccurrences(seen, a + front) ==
             FirstOccurrences(seen, a) + FirstOccurrences(seen + FirstOccurrences(seen, a), front)
    ensures FirstOccurrences(seen, a + (front + [x])) ==
            FirstOccurrences(seen, a) + FirstOccurrences(seen + FirstOccurrences(seen, a), front + [x])
  {
    hide FirstOccurrences;
    var kept := FirstOccurrences(seen, a);
    FirstOccurrencesNext(seen, a + front, x);
    FirstOccurrencesNext(seen + kept, front, x);
    assert a + front + [x] == a + (front + [x]);
    var more := FirstOccurrences(seen + kept, front);
    assert kept + more + [x] == kept + (more + [x]);
    assert x in seen || x in a + front <==> x in seen + kept || x in front;
  }

  lemma {:induction false} FirstOccurrencesDistinct<T(!new)>(seen: seq<T>, s: seq<T>)
    ensures Distinct(FirstOccurrences(seen, s))
    decreases |s|
  {
    if s != [] { FirstOccurrencesDistinct(seen, s[..|s| - 1]); }
  }
}
