/** How single lines of the `resolvectl status` listing are read. */
module ResolvectlLines {
  import opened Wrappers
  import opened Text
  import opened Resolvectl

  // ----- White space and words -----------------------------------------------------------

  /** The 25 characters that Unicode calls white space. */
  lemma WhiteSpaceIs(c: char)
    ensures IsSpace(c) <==>
            c as int in {
              9, 10, 11, 12, 13, 32, 133, 160, 5760, 8192, 8193, 8194, 8195, 8196, 8197, 8198, 8199, 8200, 8201, 8202,
              8232, 8233, 8239, 8287, 12288}
  {
  }

  predicate Spaces(s: string) {
    forall c :: c in s ==> IsSpace(c)
  }

  predicate NoSpaces(s: string) {
    forall c :: c in s ==> !IsSpace(c)
  }

  lemma {:induction false} StartTrimmed(before: string, s: string)
    requires Spaces(before) && (s == "" || !IsSpace(s[0]))
    ensures TrimStart(before + s) == s
  {
    hide IsSpace;
    if before == "" {
      assert before + s == s;
    } else {
      assert before[0] in before && forall c :: c in before[1..] ==> c in before;
      assert (before + s)[1..] == before[1..] + s;
      StartTrimmed(before[1..], s);
    }
  }

  lemma {:induction false} EndTrimmed(s: string, after: string)
    requires Spaces(after) && (s == "" || !IsSpace(s[|s| - 1]))
    ensures TrimEnd(s + after) == s
  {
    hide IsSpace;
    if after == "" {
      assert s + after == s;
    } else {
      var n := |after| - 1;
      assert after[n] in after && forall c :: c in after[..n] ==> c in after;
      assert (s + after)[..|s| + n] == s + after[..n];
      EndTrimmed(s, after[..n]);
    }
  }

  /** White space around a text makes no difference. */
  lemma TrimIs(before: string, s: string, after: string)
    requires Spaces(before) && Spaces(after) && s != "" && !IsSpace(s[0]) && !IsSpace(s[|s| - 1])
    ensures Trim(before + s + after) == s
  {
    hide IsSpace;
    assert before + s + after == before + (s + after);
    StartTrimmed(before, s + after);
    EndTrimmed(s, after);
  }

  lemma {:induction false} WordEndIs(word: string, rest: string)
    requires NoSpaces(word) && (rest == "" || IsSpace(rest[0]))
    ensures WordEnd(word + rest) == |word|
  {
    hide IsSpace;
    if word == "" {
      assert word + rest == rest;
    } else {
      assert word[0] in word && forall c :: c in word[1..] ==> c in word;
      assert (word + rest)[1..] == word[1..] + rest;
      WordEndIs(word[1..], rest);
    }
  }

  lemma {:induction false} SpacesSkipped(gap: string, rest: string)
    requires Spaces(gap)
    ensures Words(gap + rest) == Words(rest)
  {
    hide IsSpace;
    if gap == "" {
      assert gap + rest == rest;
    } else {
      assert gap[0] in gap && forall c :: c in gap[1..] ==> c in gap;
      assert (gap + rest)[1..] == gap[1..] + rest;
      SpacesSkipped(gap[1..], rest);
    }
  }

  /** A word ends at white space, and is split off whole. */
  lemma {:induction false} FirstWord(word: string, rest: string)
    requires word != "" && NoSpaces(word) && (rest == "" || IsSpace(rest[0]))
    ensures Words(word + rest) == [word] + Words(rest)
  {
    hide IsSpace;
    WordEndIs(word, rest);
    assert word[0] in word && (word + rest)[0] == word[0];
    assert (word + rest)[..|word|] == word && (word + rest)[|word|..] == rest;
  }

  /** Words with white space around them. */
  function Spread(words: seq<string>, gaps: seq<string>): string
    requires |gaps| == |words| + 1
  {
    if words == [] then gaps[0] else gaps[0] + (words[0] + Spread(words[1..], gaps[1..]))
  }

  /** Splitting finds the words again, whatever white space stands around and between them. */
  lemma {:induction false} WordsOfSpread(words: seq<string>, gaps: seq<string>)
    requires |gaps| == |words| + 1
    requires forall w :: w in words ==> w != "" && NoSpaces(w)
    requires forall i :: 0 <= i < |gaps| ==> Spaces(gaps[i]) && (0 < i < |words| ==> gaps[i] != "")
    ensures Words(Spread(words, gaps)) == words
  {
    hide IsSpace, Spaces, NoSpaces;
    if words == [] {
      SpacesSkipped(gaps[0], "");
      assert gaps[0] + "" == gaps[0];
    } else {
      var rest := Spread(words[1..], gaps[1..]);
      assert words[0] in words && forall w :: w in words[1..] ==> w in words;
      forall i | 0 <= i < |gaps| - 1
        ensures Spaces(gaps[1..][i]) && (0 < i < |words| - 1 ==> gaps[1..][i] != "")
      {
      }
      WordsOfSpread(words[1..], gaps[1..]);
      SpacesSkipped(gaps[0], words[0] + rest);
      RestStartsWithSpace(words[1..], gaps[1..]);
      FirstWord(words[0], rest);
    }
  }

  lemma {:induction false} RestStartsWithSpace(words: seq<string>, gaps: seq<string>)
    requires |gaps| == |words| + 1 && Spaces(gaps[0]) && (words != [] ==> gaps[0] != "")
    ensures Spread(words, gaps) == "" || IsSpace(Spread(words, gaps)[0])
  {
    hide IsSpace;
    assert gaps[0] != "" ==> gaps[0][0] in gaps[0];
  }

  // ----- Kinds of lines ------------------------------------------------------------------

  /** A line is a header, blank, a field or plain, by its trimmed text. */
  lemma LineKinds(raw: string, rest: string, name: string, value: string)
    requires ':' !in name
    ensures Trim(raw) == "Link " + rest ==> Read(raw) == Header(rest)
    ensures Trim(raw) == "" || Trim(raw) == "Global" <==> Read(raw) == Blank
    ensures Trim(raw) == name + ":" + value && !("Link " <= Trim(raw)) ==> Read(raw) == Field(Trim(name), Trim(value))
    ensures ':' !in Trim(raw) && !("Link " <= Trim(raw)) && Trim(raw) != "" && Trim(raw) != "Global" ==>
              Read(raw) == Plain(Trim(raw))
  {
    hide Trim, IndexOf;
    var line := Trim(raw);
    if line == "Link " + rest {
      assert line[5..] == rest;
    }
    if line == name + ":" + value {
      assert line == name + [':'] + value;
      IndexOfSplit(name, ':', value);
      assert line[|name|] == ':' && line[..|name|] == name && line[|name| + 1..] == value;
    }
    if line == "Global" {
      assert line[0] == 'G' && "Link "[0] == 'L';
    }
  }

  // ----- Headers -------------------------------------------------------------------------

  predicate IsParenthesis(c: char) {
    c == '(' || c == ')'
  }

  lemma {:induction false} NumeralIsPlain(n: nat)
    ensures ' ' !in Decimal(n) && Decimal(n) != "" && AllDigits(Decimal(n)) && Value(Decimal(n)) == n
  {
    DecimalParses(n);
  }

  /** `index (name)` is the header of a link, unless the index does not fit 32 bits. */
  lemma {:induction false} HeaderIs(index: nat, name: string)
    requires name != "" && !IsParenthesis(name[0]) && !IsParenthesis(name[|name| - 1])
    requires forall c :: c in name ==> !IsControl(c)
    ensures ParseHeader(Decimal(index) + " (" + name + ")") ==
            if index < 0x1_0000_0000 then Ok((index, name)) else Err(InvalidIndex)
  {
    hide Decimal, Value, AllDigits;
    var text := Decimal(index) + " (" + name + ")";
    NumeralIsPlain(index);
    assert text == Decimal(index) + [' '] + ("(" + name + ")");
    IndexOfSplit(Decimal(index), ' ', "(" + name + ")");
    assert text[|Decimal(index)|] == ' ';
    assert text[..|Decimal(index)|] == Decimal(index) && text[|Decimal(index)| + 1..] == "(" + name + ")";
    assert Decimal(index)[0] != '+' by { DigitsAreNoSign(Decimal(index)); }
    ParenthesesStripped(name);
    PlainIsUnchanged(name);
  }

  lemma DigitsAreNoSign(s: string)
    requires s != "" && AllDigits(s)
    ensures s[0] != '+'
  {
  }

  lemma {:induction false} ParenthesesStripped(name: string)
    requires name != "" && !IsParenthesis(name[0]) && !IsParenthesis(name[|name| - 1])
    ensures StripParentheses("(" + name + ")") == name
  {
    var s := "(" + name + ")";
    assert s[1..] == name + ")";
    assert (name + ")")[..|name|] == name;
    assert StripParentheses(name) == name;
    assert StripParentheses(name + ")") == StripParentheses(name);
  }

  /** Without a space after the index the header is malformed. */
  lemma HeaderNeedsSpace(text: string)
    ensures ParseHeader(text) == Err(MalformedHeader) <==> ' ' !in text
  {
    var n := IndexOf(text, ' ');
    if n == |text| { assert text[..n] == text; } else { assert text[n] in text; }
  }

  // ----- The default route ---------------------------------------------------------------

  /** The first word that settles the default route. */
  predicate SettledBy(words: seq<string>, i: nat) {
    && i < |words| && (words[i] == "+DefaultRoute" || words[i] == "-DefaultRoute")
    && forall j :: 0 <= j < i ==> words[j] != "+DefaultRoute" && words[j] != "-DefaultRoute"
  }

  lemma {:induction false} RouteProtocolIs(words: seq<string>)
    ensures RouteProtocol(words).None? <==> "+DefaultRoute" !in words && "-DefaultRoute" !in words
    ensures forall i: nat :: SettledBy(words, i) ==> RouteProtocol(words) == Some(words[i] == "+DefaultRoute")
  {
    if words != [] && words[0] != "+DefaultRoute" && words[0] != "-DefaultRoute" {
      var rest := words[1..];
      RouteProtocolIs(rest);
      assert words == [words[0]] + rest;
      forall i: nat | SettledBy(words, i) ensures RouteProtocol(words) == Some(words[i] == "+DefaultRoute") {
        assert SettledBy(rest, i - 1) by {
          forall j | 0 <= j < i - 1 ensures rest[j] != "+DefaultRoute" && rest[j] != "-DefaultRoute" {
            assert words[j + 1] == rest[j];
          }
        }
      }
    }
  }

  /** The setting overrides, the list of protocols only fills in, and no other field has a say. */
  lemma {:induction false} RouteFromField(name: string, value: string, before: Option<bool>)
    ensures var after := RouteFrom(name, value, before);
            && (name == "DefaultRoute setting" || name == "Default Route" ==>
                  && (after == Some(true) <==> value == "yes") && (after == Some(false) <==> value == "no"))
            && (name == "Protocols" && before == None ==>
                  && (after == None <==> "+DefaultRoute" !in Words(value) && "-DefaultRoute" !in Words(value))
                  && forall i: nat :: SettledBy(Words(value), i) ==>
                       after == Some(Words(value)[i] == "+DefaultRoute"))
            && (name != "DefaultRoute setting" && name != "Default Route" && (name != "Protocols" || before.Some?) ==>
                  after == before)
  {
    RouteProtocolIs(Words(value));
  }
}
