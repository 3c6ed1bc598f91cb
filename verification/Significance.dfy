/** What the significance of a change says about its location. */
module Significance {
  import opened Sequences
  import opened Json
  import opened Pointer
  import opened Compare
  import opened Comparison

  // ----- Prefixes and suffixes of a pointer ----------------------------------------------

  /** Characters that escaping leaves alone. */
  predicate Unescaped(s: string) {
    '~' !in s && '/' !in s
  }

  lemma EscapeFirst(token: string)
    requires token != []
    ensures Escape(token) == Escape([token[0]]) + Escape(token[1..])
    ensures Unescaped([token[0]]) ==> Escape([token[0]]) == [token[0]]
    ensures !Unescaped([token[0]]) ==> Escape([token[0]]) != [] && Escape([token[0]])[0] == '~'
  {
    var first, rest := [token[0]], token[1..];
    assert token == first + rest;
    ReplaceConcat(first, rest, '~', "~0");
    ReplaceConcat(ReplaceChar(first, '~', "~0"), ReplaceChar(rest, '~', "~0"), '/', "~1");
    if Unescaped(first) {
      EscapePlain(first);
    } else if token[0] == '~' {
      assert first[1..] == [] && ReplaceChar(first, '~', "~0") == "~0";
      assert "~0"[0] == '~';
    } else {
      assert token[0] == '/';
      ReplaceAbsent(first, '~', "~0");
      assert first[1..] == [];
    }
  }

  lemma {:induction false} ReplaceConcat(a: string, b: string, c: char, with: string)
    ensures ReplaceChar(a + b, c, with) == ReplaceChar(a, c, with) + ReplaceChar(b, c, with)
  {
    if a == [] {
      assert a + b == b;
    } else {
      assert (a + b)[1..] == a[1..] + b;
      ReplaceConcat(a[1..], b, c, with);
    }
  }

  /** Escaping keeps and adds no plain prefix, whatever follows the token. */
  lemma {:induction false} EscapedPrefix(name: string, token: string, rest: string)
    requires Unescaped(name) && (rest == [] || rest[0] == '/')
    ensures name <= Escape(token) + rest <==> name <= token
  {
    hide Escape;
    if name != [] {
      assert name[0] in name && forall c :: c in name[1..] ==> c in name;
      if token == [] {
        assert Escape([]) == [] by { EscapePlain([]); }
        assert Escape([]) + rest == rest;
      } else {
        var text := Escape(token) + rest;
        EscapeFirst(token);
        if Unescaped([token[0]]) {
          EscapedPrefix(name[1..], token[1..], rest);
          assert text[0] == token[0] && text[1..] == Escape(token[1..]) + rest;
          assert name <= text <==> name[0] == text[0] && name[1..] <= text[1..];
        } else {
          assert text[0] == '~';
          assert token[0] == '~' || token[0] == '/';
        }
      }
    }
  }

  lemma {:induction false} RestStartsWithSlash(at: Path)
    ensures PointerText(at) == [] || PointerText(at)[0] == '/'
  {
  }

  lemma {:induction false} PointerCons(at: Path)
    requires at != []
    ensures PointerText(at) == "/" + (Escape(at[0]) + PointerText(at[1..]))
  {
    hide Escape;
    assert "/" + Escape(at[0]) + PointerText(at[1..]) == "/" + (Escape(at[0]) + PointerText(at[1..]));
  }

  lemma AfterSlash(a: string, b: string)
    ensures "/" + a <= "/" + b <==> a <= b
  {
    assert ("/" + a)[1..] == a && ("/" + b)[1..] == b;
    if a <= b { assert b == a + b[|a|..]; assert "/" + b == "/" + a + b[|a|..]; }
  }

  /** The text starts with `/name` exactly when the first token starts with `name`. */
  lemma {:induction false} FirstTokenStarts(at: Path, name: string)
    requires Unescaped(name)
    ensures "/" + name <= PointerText(at) <==> at != [] && name <= at[0]
  {
    hide Escape;
    if at != [] {
      PointerCons(at);
      RestStartsWithSlash(at[1..]);
      hide PointerText;
      EscapedPrefix(name, at[0], PointerText(at[1..]));
      AfterSlash(name, Escape(at[0]) + PointerText(at[1..]));
    }
  }

  /** The text starts with `/outer/inner` exactly when the first token is `outer` and the next starts with `inner`. */
  lemma {:induction false} SecondTokenStarts(at: Path, outer: string, inner: string)
    requires Unescaped(outer) && Unescaped(inner)
    ensures "/" + (outer + ("/" + inner)) <= PointerText(at) <==> |at| > 1 && at[0] == outer && inner <= at[1]
  {
    hide Escape;
    if at != [] {
      PointerCons(at);
      RestStartsWithSlash(at[1..]);
      FirstTokenStarts(at[1..], inner);
      hide PointerText;
      AfterSlash(outer + ("/" + inner), Escape(at[0]) + PointerText(at[1..]));
      SegmentBoundary(outer, "/" + inner, at[0], PointerText(at[1..]));
    }
  }

  lemma {:induction false} SegmentBoundary(outer: string, tail: string, token: string, rest: string)
    requires Unescaped(outer) && tail != [] && tail[0] == '/' && (rest == [] || rest[0] == '/')
    ensures outer + tail <= Escape(token) + rest <==> token == outer && tail <= rest
  {
    hide Escape;
    var whole, text := outer + tail, Escape(token) + rest;
    if token == [] {
      assert Escape([]) == [] by { EscapePlain([]); }
      assert text == rest;
      if outer != [] { assert whole[0] == outer[0] && outer[0] in outer; } else { assert whole == tail; }
    } else {
      EscapeFirst(token);
      if outer == [] {
        assert whole[0] == '/';
        assert text[0] == Escape([token[0]])[0];
      } else {
        assert outer[0] in outer && forall c :: c in outer[1..] ==> c in outer;
        assert whole[0] == outer[0] && whole[1..] == outer[1..] + tail;
        assert text[0] == Escape([token[0]])[0];
        if Unescaped([token[0]]) {
          SegmentBoundary(outer[1..], tail, token[1..], rest);
          assert text[1..] == Escape(token[1..]) + rest;
          assert whole <= text <==> whole[0] == text[0] && whole[1..] <= text[1..];
          assert token == [token[0]] + token[1..] && outer == [outer[0]] + outer[1..];
        }
      }
    }
  }

  lemma {:induction false} EndsInLastToken(front: Path, name: string)
    requires Unescaped(name)
    ensures EndsWith(PointerText(front + [name]), "/" + name)
  {
    PlainPointer(front, name);
    var text, tail := PointerText(front), "/" + name;
    assert PointerText(front + [name]) == text + tail;
    assert (text + tail)[|text|..] == tail;
  }

  /** The text ends with `/name` exactly when the last token is `name`. */
  lemma {:induction false} LastTokenIs(at: Path, name: string)
    requires Unescaped(name)
    ensures EndsWith(PointerText(at), "/" + name) <==> at != [] && at[|at| - 1] == name
  {
    hide Escape, PointerText, EndsWith;
    if at == [] {
      EmptyEndsInNothing("/" + name);
    } else {
      var last := at[|at| - 1];
      assert at == at[..|at| - 1] + [last];
      LastSegmentOfPointer(at);
      EscapesTo(last, name);
      if EndsWith(PointerText(at), "/" + name) {
        LastSegmentOfSuffix(PointerText(at), name);
      }
      if last == name {
        EndsInLastToken(at[..|at| - 1], name);
      }
    }
  }

  lemma EmptyEndsInNothing(tail: string)
    requires tail != []
    ensures !EndsWith(PointerText([]), tail)
  {
  }

  lemma {:induction false} LastSegmentOfSuffix(whole: string, name: string)
    requires EndsWith(whole, "/" + name) && '/' !in name
    ensures LastSegment(whole) == name
  {
    var front := whole[..|whole| - |name| - 1];
    assert whole == front + "/" + name;
    LastSegmentIs(front, name);
  }

  // ----- What the significance says ------------------------------------------------------

  /** Verdicts, statuses and kinds of errors. */
  predicate Decisive(at: Path) {
    || at == ["overall"] || at == ["exit_code"]
    || (|at| > 1 && at[0] == "diagnosis" && "code" <= at[1])
    || (at != [] && (at[|at| - 1] == "status" || at[|at| - 1] == "error_kind"))
  }

  /** The evidence of a probe. */
  predicate InEvidence(at: Path) {
    && at != []
    && ("dns" <= at[0] || "routes" <= at[0] || "tcp" <= at[0] || "application_attempts" <= at[0]
        || "path_evidence" <= at[0] || "proxy_transport" <= at[0] || "plugins" <= at[0])
  }

  lemma {:induction false} DecisivePath(at: Path)
    ensures var path := PointerText(at);
            Decisive(at) <==>
              || path == "/overall" || path == "/exit_code" || "/diagnosis/code" <= path
              || EndsWith(path, "/status") || EndsWith(path, "/error_kind")
  {
    hide PointerText, EndsWith;
    assert PointerText(at) == "/overall" <==> at == ["overall"] by { IsField(at, "overall", "/overall"); }
    assert PointerText(at) == "/exit_code" <==> at == ["exit_code"] by { IsField(at, "exit_code", "/exit_code"); }
    assert "/diagnosis/code" <= PointerText(at) <==> |at| > 1 && at[0] == "diagnosis" && "code" <= at[1] by {
      assert "/" + ("diagnosis" + ("/" + "code")) == "/diagnosis/code";
      SecondTokenStarts(at, "diagnosis", "code");
    }
    assert EndsWith(PointerText(at), "/status") <==> at != [] && at[|at| - 1] == "status" by {
      assert "/" + "status" == "/status";
      LastTokenIs(at, "status");
    }
    assert EndsWith(PointerText(at), "/error_kind") <==> at != [] && at[|at| - 1] == "error_kind" by {
      assert "/" + "error_kind" == "/error_kind";
      LastTokenIs(at, "error_kind");
    }
  }

  lemma {:induction false} StartsAs(at: Path, name: string, text: string)
    requires Unescaped(name) && text == "/" + name
    ensures text <= PointerText(at) <==> at != [] && name <= at[0]
  {
    FirstTokenStarts(at, name);
  }

  lemma {:induction false} ProbePath(at: Path)
    ensures var path := PointerText(at);
            ("/dns" <= path || "/routes" <= path || "/tcp" <= path) <==>
              at != [] && ("dns" <= at[0] || "routes" <= at[0] || "tcp" <= at[0])
  {
    hide PointerText;
    assert "/dns" <= PointerText(at) <==> at != [] && "dns" <= at[0] by { StartsAs(at, "dns", "/dns"); }
    assert "/routes" <= PointerText(at) <==> at != [] && "routes" <= at[0] by { StartsAs(at, "routes", "/routes"); }
    assert "/tcp" <= PointerText(at) <==> at != [] && "tcp" <= at[0] by { StartsAs(at, "tcp", "/tcp"); }
  }

  lemma {:induction false} AttemptsPath(at: Path)
    ensures "/application_attempts" <= PointerText(at) <==> at != [] && "application_attempts" <= at[0]
  {
    StartsAs(at, "application_attempts", "/application_attempts");
  }

  lemma {:induction false} HostPath(at: Path)
    ensures var path := PointerText(at);
            ("/path_evidence" <= path || "/proxy_transport" <= path || "/plugins" <= path) <==>
              at != [] && ("path_evidence" <= at[0] || "proxy_transport" <= at[0] || "plugins" <= at[0])
  {
    hide PointerText;
    assert "/path_evidence" <= PointerText(at) <==> at != [] && "path_evidence" <= at[0] by {
      StartsAs(at, "path_evidence", "/path_evidence");
    }
    assert "/proxy_transport" <= PointerText(at) <==> at != [] && "proxy_transport" <= at[0] by {
      StartsAs(at, "proxy_transport", "/proxy_transport");
    }
    assert "/plugins" <= PointerText(at) <==> at != [] && "plugins" <= at[0] by { StartsAs(at, "plugins", "/plugins"); }
  }

  /** The significance of a recorded difference, from where it is. */
  lemma SignificanceExact(d: Difference)
    ensures Render(d).significance == High <==> Decisive(d.at)
    ensures Render(d).significance == Medium <==> InEvidence(d.at) && !Decisive(d.at)
    ensures Render(d).significance == Low <==> !InEvidence(d.at) && !Decisive(d.at)
  {
    hide PointerText, Decisive, EndsWith;
    DecisivePath(d.at);
    ProbePath(d.at);
    AttemptsPath(d.at);
    HostPath(d.at);
  }

  lemma {:induction false} CountLast(changes: seq<Change>, last: Change)
    ensures CountHigh(changes + [last]) == CountHigh(changes) + if last.significance == High then 1 else 0
  {
    if changes != [] {
      assert (changes + [last])[1..] == changes[1..] + [last];
      CountLast(changes[1..], last);
    }
  }

  /** The count of significant changes is the number of places in the list that hold one. */
  lemma {:induction false} CountIsExact(changes: seq<Change>)
    ensures CountHigh(changes) == |set i | 0 <= i < |changes| && changes[i].significance == High|
  {
    var places := set i | 0 <= i < |changes| && changes[i].significance == High;
    if changes == [] {
      assert places == {};
    } else {
      var n := |changes| - 1;
      var front := changes[..n];
      assert changes == front + [changes[n]];
      CountLast(front, changes[n]);
      CountIsExact(front);
      OneMorePlace(front, changes[n]);
    }
  }

  lemma OneMorePlace(front: seq<Change>, last: Change)
    ensures var changes := front + [last];
            |set i | 0 <= i < |changes| && changes[i].significance == High| ==
            |set i | 0 <= i < |front| && front[i].significance == High| + if last.significance == High then 1 else 0
  {
    var changes := front + [last];
    var places := set i | 0 <= i < |changes| && changes[i].significance == High;
    var earlier := set i | 0 <= i < |front| && front[i].significance == High;
    assert places == earlier + if last.significance == High then {|front|} else {};
  }

  /** The kept changes and their count, by the locations of the differences. */
  ghost predicate RatedByLocation(changes: seq<Change>, significant: nat, ds: seq<Difference>)
    requires |changes| <= |ds|
  {
    && (forall i :: 0 <= i < |changes| ==>
          && (changes[i].significance == High <==> Decisive(ds[i].at))
          && (changes[i].significance == Medium <==> InEvidence(ds[i].at) && !Decisive(ds[i].at))
          && (changes[i].significance == Low <==> !InEvidence(ds[i].at) && !Decisive(ds[i].at)))
    && significant == |set i | 0 <= i < |changes| && Decisive(ds[i].at)|
  }

  lemma {:induction false} KeptAreRated(ds: seq<Difference>, changes: seq<Change>)
    requires |changes| <= |ds| && forall i :: 0 <= i < |changes| ==> changes[i] == Render(ds[i])
    ensures RatedByLocation(changes, CountHigh(changes), ds)
  {
    hide Decisive, InEvidence, Render;
    CountIsExact(changes);
    forall i | 0 <= i < |changes|
      ensures changes[i].significance == High <==> Decisive(ds[i].at)
      ensures changes[i].significance == Medium <==> InEvidence(ds[i].at) && !Decisive(ds[i].at)
      ensures changes[i].significance == Low <==> !InEvidence(ds[i].at) && !Decisive(ds[i].at)
    {
      SignificanceExact(ds[i]);
    }
    assert (set i | 0 <= i < |changes| && changes[i].significance == High)
        == (set i | 0 <= i < |changes| && Decisive(ds[i].at));
  }
}
