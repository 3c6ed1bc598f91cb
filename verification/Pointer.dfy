/** JSON Pointer text: escaping, concatenation and decoding (RFC 6901 sections 3 and 4). */
module Pointer {
  import opened Json

  /** Replace every occurrence of one character by a string. */
  function ReplaceChar(s: string, c: char, with: string): string {
    if s == [] then [] else (if s[0] == c then with else [s[0]]) + ReplaceChar(s[1..], c, with)
  }

  /** Replace every occurrence, left to right, of the pair `a b` by one character. */
  function ReplacePair(s: string, a: char, b: char, with: char): string {
    if |s| >= 2 && s[0] == a && s[1] == b then [with] + ReplacePair(s[2..], a, b, with)
    else if s == [] then []
    else [s[0]] + ReplacePair(s[1..], a, b, with)
  }

  function Escape(token: string): string {
    ReplaceChar(ReplaceChar(token, '~', "~0"), '/', "~1")
  }

  /** RFC 6901 section 4: first `~1` becomes `/`, then `~0` becomes `~`. */
  function Unescape(text: string): string {
    ReplacePair(ReplacePair(text, '~', '1', '/'), '~', '0', '~')
  }

  predicate TildeThenZero(s: string) {
    forall i :: 0 <= i < |s| && s[i] == '~' ==> i + 1 < |s| && s[i + 1] == '0'
  }

  lemma {:induction false} TildesEscaped(s: string)
    ensures TildeThenZero(ReplaceChar(s, '~', "~0"))
    ensures ReplacePair(ReplaceChar(s, '~', "~0"), '~', '0', '~') == s
  {
    if s != [] {
      TildesEscaped(s[1..]);
      var rest := ReplaceChar(s[1..], '~', "~0");
      if s[0] == '~' {
        assert ReplaceChar(s, '~', "~0")[2..] == rest;
      } else {
        assert ReplaceChar(s, '~', "~0")[1..] == rest;
      }
      assert s == [s[0]] + s[1..];
    }
  }

  lemma {:induction false} SlashesEscaped(s: string)
    requires TildeThenZero(s)
    ensures ReplacePair(ReplaceChar(s, '/', "~1"), '~', '1', '/') == s
    ensures '/' !in ReplaceChar(s, '/', "~1")
    decreases |s|
  {
    if s != [] {
      var rest := s[1..];
      assert TildeThenZero(rest) by {
        forall i | 0 <= i < |rest| && rest[i] == '~' ensures i + 1 < |rest| && rest[i + 1] == '0' {
          assert s[i + 1] == '~';
        }
      }
      SlashesEscaped(rest);
      var escaped := ReplaceChar(rest, '/', "~1");
      var whole := ReplaceChar(s, '/', "~1");
      if s[0] == '/' {
        assert whole == ['~', '1'] + escaped && whole[2..] == escaped;
      } else {
        assert whole == [s[0]] + escaped && whole[1..] == escaped;
        if s[0] == '~' {
          assert s[1] == '0' && escaped[0] == '0';
        }
      }
      assert s == [s[0]] + rest;
    }
  }

  lemma UnescapeEscape(token: string)
    ensures Unescape(Escape(token)) == token
    ensures '/' !in Escape(token)
  {
    TildesEscaped(token);
    SlashesEscaped(ReplaceChar(token, '~', "~0"));
  }

  lemma EscapeInjective(a: string, b: string)
    requires Escape(a) == Escape(b)
    ensures a == b
  {
    UnescapeEscape(a);
    UnescapeEscape(b);
  }

  lemma {:induction false} ReplaceAbsent(s: string, c: char, with: string)
    requires c !in s
    ensures ReplaceChar(s, c, with) == s
  {
    if s != [] {
      ReplaceAbsent(s[1..], c, with);
      assert s == [s[0]] + s[1..];
    }
  }

  lemma EscapePlain(token: string)
    requires '~' !in token && '/' !in token
    ensures Escape(token) == token
  {
    ReplaceAbsent(token, '~', "~0");
    ReplaceAbsent(token, '/', "~1");
  }

  // ----- Whole pointers ------------------------------------------------------------------

  function PointerText(at: Path): string {
    if at == [] then "" else "/" + Escape(at[0]) + PointerText(at[1..])
  }

  /** The comparison extends a pointer at its right end. */
  lemma {:induction false} PointerAppend(at: Path, token: string)
    ensures PointerText(at + [token]) == PointerText(at) + "/" + Escape(token)
  {
    if at == [] {
      assert at + [token] == [token];
      assert PointerText([token]) == "/" + Escape(token) + PointerText([]);
    } else {
      assert (at + [token])[1..] == at[1..] + [token];
      PointerAppend(at[1..], token);
    }
  }

  /** The text after the last `/`, or all of it when there is none. */
  function LastSegment(path: string): string {
    if path == [] then []
    else if path[|path| - 1] == '/' then []
    else LastSegment(path[..|path| - 1]) + [path[|path| - 1]]
  }

  lemma {:induction false} LastSegmentIs(front: string, segment: string)
    requires '/' !in segment
    ensures LastSegment(front + "/" + segment) == segment
    decreases |segment|
  {
    var path := front + "/" + segment;
    if segment != [] {
      var shorter := segment[..|segment| - 1];
      LastSegmentIs(front, shorter);
      assert path[..|path| - 1] == front + "/" + shorter;
      assert segment == shorter + [segment[|segment| - 1]];
    }
  }

  /** The text before the first `/` and, when there is one, the text from it on. */
  function Cut(text: string): (parts: (string, string))
    ensures text == parts.0 + parts.1
    ensures |parts.1| <= |text|
  {
    if text == [] || text[0] == '/' then ([], text)
    else
      var (segment, rest) := Cut(text[1..]);
      ([text[0]] + segment, rest)
  }

  /** Decoding by RFC 6901: `/`-prefixed segments, each unescaped. */
  function Decode(text: string): Path
    decreases |text|
  {
    if text == [] then []
    else
      var (segment, rest) := Cut(text[1..]);
      [Unescape(segment)] + Decode(rest)
  }

  lemma {:induction false} CutAt(segment: string, rest: string)
    requires '/' !in segment
    requires rest == [] || rest[0] == '/'
    ensures Cut(segment + rest) == (segment, rest)
  {
    if segment == [] {
      assert segment + rest == rest;
    } else {
      CutAt(segment[1..], rest);
      var text := segment + rest;
      assert text[0] == segment[0] && text[1..] == segment[1..] + rest;
      assert segment == [segment[0]] + segment[1..];
    }
  }

  lemma {:induction false} DecodeFirst(segment: string, rest: string)
    requires '/' !in segment
    requires rest == [] || rest[0] == '/'
    ensures Decode("/" + segment + rest) == [Unescape(segment)] + Decode(rest)
  {
    hide Cut, Unescape;
    CutAt(segment, rest);
    var text := "/" + segment + rest;
    assert text[1..] == segment + rest;
  }

  lemma {:induction false} DecodePointer(at: Path)
    ensures Decode(PointerText(at)) == at
  {
    if at != [] {
      var segment, rest := Escape(at[0]), PointerText(at[1..]);
      UnescapeEscape(at[0]);
      DecodeFirst(segment, rest);
      DecodePointer(at[1..]);
    }
  }

  lemma {:induction false} PointerInjective(a: Path, b: Path)
    requires PointerText(a) == PointerText(b)
    ensures a == b
  {
    DecodePointer(a);
    DecodePointer(b);
  }
}
