/** The bounded line reader, the status line and the loop over informational responses. */
module Http {
  import opened Wrappers
  import opened Sequences
  import opened Bytes
  import opened Utf8

  const MAX_STATUS_LINE_BYTES: nat := 8 * 1024
  const MAX_HEADER_LINE_BYTES: nat := 8 * 1024
  const MAX_INFORMATIONAL_HEADER_BYTES: nat := 64 * 1024
  const MAX_INFORMATIONAL_RESPONSES: nat := 8

  datatype HttpError =
    | ClosedEarly | LineTooLong | NotCrlf
    | NotUtf8 | ControlCharacter | InvalidStatusLine | InvalidStatusCode
    | TooManyInformational | HeadersTooLong

  datatype StatusLine = StatusLine(text: seq<Byte>, code: nat)

  // ----- One line ------------------------------------------------------------------------

  /** Reading up to and including a line feed, `limit` bytes at most, consumes `n` bytes. */
  ghost predicate StopsAt(input: seq<Byte>, limit: nat, n: nat) {
    && n <= Min(|input|, limit)
    && (forall i :: 0 <= i < n - 1 ==> input[i] != LF)
    && (n < Min(|input|, limit) ==> n > 0 && input[n - 1] == LF)
  }

  lemma {:induction false} StopExists(input: seq<Byte>, limit: nat) returns (n: nat)
    ensures StopsAt(input, limit, n)
  {
    n := 0;
    while n < Min(|input|, limit) && (n == 0 || input[n - 1] != LF)
      invariant n <= Min(|input|, limit)
      invariant forall i :: 0 <= i < n - 1 ==> input[i] != LF
    {
      n := n + 1;
    }
  }

  ghost function UpToLineFeed(input: seq<Byte>, limit: nat): (n: nat)
    ensures StopsAt(input, limit, n)
  {
    assert exists n: nat :: StopsAt(input, limit, n) by { var n := StopExists(input, limit); }
    var n: nat :| StopsAt(input, limit, n);
    n
  }

  predicate EndsWithCrlf(line: seq<Byte>) {
    |line| >= 2 && line[|line| - 2] == CR && line[|line| - 1] == LF
  }

  /** The next line of at most `max` bytes, or why there is none, and what is left unread. */
  ghost function ReadLine(input: seq<Byte>, max: nat): (r: (Result<seq<Byte>, HttpError>, seq<Byte>))
    ensures |r.1| <= |input| <= |r.1| + max + 1
    ensures r.0.Ok? ==> |r.0.value| == |input| - |r.1| && 2 <= |r.0.value| <= max && EndsWithCrlf(r.0.value)
  {
    var n := UpToLineFeed(input, max + 1);
    var line := input[..n];
    (if line == [] then Err(ClosedEarly)
     else if n > max then Err(LineTooLong)
     else if !EndsWithCrlf(line) then Err(NotCrlf)
     else Ok(line),
     input[n..])
  }

  /** A complete line within the limit: its only line feed is the one that ends it. */
  predicate WireLine(line: seq<Byte>, max: nat) {
    && |line| <= max && EndsWithCrlf(line)
    && forall i :: 0 <= i < |line| - 1 ==> line[i] != LF
  }

  /** The reader returns exactly the well-formed lines, whatever follows them. */
  lemma ReadLineExact(input: seq<Byte>, max: nat, line: seq<Byte>, rest: seq<Byte>)
    ensures ReadLine(input, max) == (Ok(line), rest) <==> WireLine(line, max) && input == line + rest
  {
    var n := UpToLineFeed(input, max + 1);
    if ReadLine(input, max) == (Ok(line), rest) {
      assert input == input[..n] + input[n..];
    }
    if WireLine(line, max) && input == line + rest {
      assert input[|line| - 1] == line[|line| - 1] == LF;
      assert forall i :: 0 <= i < |line| - 1 ==> input[i] == line[i];
      assert input[..n] == line && input[n..] == rest;
    }
  }

  /** Such a line is text without line feeds, a carriage return and a line feed. */
  lemma LineIs(line: seq<Byte>, max: nat)
    ensures WireLine(line, max) <==> |line| <= max && exists text :: line == text + [13, 10] && 10 !in text
  {
    if WireLine(line, max) {
      var text := line[..|line| - 2];
      assert line == text + [13, 10];
    }
  }

  /** Why there is no line: nothing to read, no line feed within the limit, or no carriage return before it. */
  lemma NoLineBecause(input: seq<Byte>, max: nat)
    ensures ReadLine(input, max).0 == Err(ClosedEarly) <==> input == []
    ensures ReadLine(input, max).0 == Err(LineTooLong) <==> |input| > max && 10 !in input[..max]
    ensures ReadLine(input, max).0.Ok? || ReadLine(input, max).0.error in {ClosedEarly, LineTooLong, NotCrlf}
  {
    var n := UpToLineFeed(input, max + 1);
    assert input != [] ==> n > 0;
    if n > max {
      assert forall i :: 0 <= i < max ==> input[..max][i] == input[i];
    } else if |input| > max {
      assert input[..max][n - 1] == 10;
    }
  }

  // ----- The status line -----------------------------------------------------------------

  function FirstSpace(s: seq<Byte>): (n: nat)
    ensures n <= |s|
    ensures forall i :: 0 <= i < n ==> s[i] != SP
    ensures n < |s| ==> s[n] == SP
  {
    if s == [] || s[0] == SP then 0 else 1 + FirstSpace(s[1..])
  }

  /** The text after the first space; empty when there is no space. */
  function AfterSpace(s: seq<Byte>): seq<Byte> {
    if FirstSpace(s) < |s| then s[FirstSpace(s) + 1..] else []
  }

  predicate IsDigit(b: Byte) {
    48 <= b < 58
  }

  function DigitOf(b: Byte): nat
    requires IsDigit(b)
  {
    b as int - 48
  }

  /** `HTTP/1.` */
  const HTTP_1: seq<Byte> := [72, 84, 84, 80, 47, 49, 46]

  function ParseStatusLine(line: seq<Byte>): Result<StatusLine, HttpError>
    requires EndsWithCrlf(line)
  {
    var text := line[..|line| - 2];
    var version := text[..FirstSpace(text)];
    var tail := AfterSpace(text);
    var code := tail[..FirstSpace(tail)];
    if !IsUtf8(text) then Err(NotUtf8)
    else if !NoControls(text) then Err(ControlCharacter)
    else if !(version == HTTP_1 + [48] || version == HTTP_1 + [49]) || |code| != 3
            || !(IsDigit(code[0]) && IsDigit(code[1]) && IsDigit(code[2])) then Err(InvalidStatusLine)
    else
      var value := 100 * DigitOf(code[0]) + 10 * DigitOf(code[1]) + DigitOf(code[2]);
      if 100 <= value <= 599 then Ok(StatusLine(text, value)) else Err(InvalidStatusCode)
  }

  /** Well-formed UTF-8 without control characters. */
  ghost predicate PlainText(text: seq<Byte>) {
    exists characters :: text == SpellAll(characters) && forall c :: c in characters ==> !IsControlCode(c)
  }

  lemma {:induction false} PlainTextIff(text: seq<Byte>)
    ensures PlainText(text) <==> IsUtf8(text) && NoControls(text)
  {
    if IsUtf8(text) {
      var characters := Utf8IsSpelled(text);
      ControlsExactly(characters);
    }
    forall characters | text == SpellAll(characters) && forall c :: c in characters ==> !IsControlCode(c)
      ensures IsUtf8(text) && NoControls(text)
    {
      SpelledIsUtf8(characters);
      ControlsExactly(characters);
    }
  }

  /** Where version, spaces and code stand; the space after the code may be missing at the end. */
  predicate Shaped(text: seq<Byte>) {
    && |text| >= 12
    && text[..7] == HTTP_1 && (text[7] == 48 || text[7] == 49)
    && text[8] == 32
    && IsDigit(text[9]) && IsDigit(text[10]) && IsDigit(text[11])
    && (|text| > 12 ==> text[12] == 32)
  }

  function CodeIn(text: seq<Byte>): nat
    requires Shaped(text)
  {
    100 * DigitOf(text[9]) + 10 * DigitOf(text[10]) + DigitOf(text[11])
  }

  /** What the parser admits, place by place. */
  ghost predicate Accepted(text: seq<Byte>, code: nat) {
    PlainText(text) && Shaped(text) && code == CodeIn(text) && 100 <= code <= 599
  }

  lemma {:induction false} FirstSpaceIs(s: seq<Byte>, n: nat)
    requires n <= |s| && (forall i :: 0 <= i < n ==> s[i] != SP) && (n < |s| ==> s[n] == SP)
    ensures FirstSpace(s) == n
  {
  }

  lemma {:induction false} SplitAccepted(t: seq<Byte>)
    requires |t| >= 12 && t[..7] == HTTP_1 && (t[7] == 48 || t[7] == 49) && t[8] == SP
    requires IsDigit(t[9]) && IsDigit(t[10]) && IsDigit(t[11]) && (|t| > 12 ==> t[12] == SP)
    ensures FirstSpace(t) == 8 && t[..8] == HTTP_1 + [t[7]]
    ensures AfterSpace(t) == t[9..] && FirstSpace(AfterSpace(t)) == 3
  {
    assert forall i :: 0 <= i < 7 ==> t[i] == t[..7][i];
    FirstSpaceIs(t, 8);
    FirstSpaceIs(t[9..], 3);
  }

  lemma {:induction false} JoinSplit(t: seq<Byte>)
    requires FirstSpace(t) == 8 && FirstSpace(AfterSpace(t)) == 3
    ensures |t| >= 12 && t[8] == SP && AfterSpace(t) == t[9..]
    ensures |t| > 12 ==> t[12] == SP
    ensures AfterSpace(t)[..3] == t[9..12]
  {
    hide FirstSpace;
    var tail := AfterSpace(t);
    assert |t| > 8;
    assert |t| > 12 ==> tail[3] == t[12];
  }

  /** Splitting at spaces and parsing the pieces accepts exactly the texts of that shape. */
  lemma ShapeExact(line: seq<Byte>)
    requires EndsWithCrlf(line)
    ensures var text, outcome := line[..|line| - 2], ParseStatusLine(line);
            && (outcome == Err(NotUtf8) <==> !IsUtf8(text))
            && (outcome == Err(ControlCharacter) <==> IsUtf8(text) && !NoControls(text))
            && (outcome == Err(InvalidStatusLine) <==> IsUtf8(text) && NoControls(text) && !Shaped(text))
            && (IsUtf8(text) && NoControls(text) && Shaped(text) ==>
                  outcome == if 100 <= CodeIn(text) <= 599 then Ok(StatusLine(text, CodeIn(text)))
                             else Err(InvalidStatusCode))
  {
    hide IsUtf8, NoControls;
    var t := line[..|line| - 2];
    if Shaped(t) {
      SplitAccepted(t);
      assert t[9..][..3] == t[9..12];
    }
    if IsUtf8(t) && NoControls(t) && ParseStatusLine(line) != Err(InvalidStatusLine) {
      assert |t[..FirstSpace(t)]| == 8;
      JoinSplit(t);
      assert t[..7] == t[..8][..7] && t[7] == t[..8][7];
      assert t[9..12][0] == t[9] && t[9..12][1] == t[10] && t[9..12][2] == t[11];
    }
  }

  /** Which lines are accepted, and with what text and code. */
  lemma StatusLineExact(line: seq<Byte>, text: seq<Byte>, code: nat)
    requires EndsWithCrlf(line)
    ensures ParseStatusLine(line) == Ok(StatusLine(text, code)) <==>
            text == line[..|line| - 2] && Accepted(text, code)
  {
    hide ParseStatusLine, Shaped, IsUtf8, NoControls, PlainText;
    ShapeExact(line);
    PlainTextIff(line[..|line| - 2]);
  }

  /** Why a line is refused: the text, then the shape, then the code. */
  lemma StatusLineErrors(line: seq<Byte>)
    requires EndsWithCrlf(line) && ParseStatusLine(line).Err?
    ensures var text := line[..|line| - 2];
            match ParseStatusLine(line).error
            case NotUtf8 => forall characters :: text != SpellAll(characters)
            case ControlCharacter =>
              exists characters, c :: text == SpellAll(characters) && c in characters && IsControlCode(c)
            case InvalidStatusLine => PlainText(text) && !Shaped(text)
            case InvalidStatusCode =>
              PlainText(text) && Shaped(text) && !(100 <= CodeIn(text) <= 599)
            case _ => false
  {
    hide ParseStatusLine, Shaped, IsUtf8, NoControls, PlainText;
    var text := line[..|line| - 2];
    ShapeExact(line);
    PlainTextIff(text);
    Utf8Exactly(text);
    if ParseStatusLine(line) == Err(ControlCharacter) {
      var characters := Utf8IsSpelled(text);
      ControlsExactly(characters);
    }
  }

  // ----- The status line of RFC 9112 section 4 -------------------------------------------

  /** `HTTP/` */
  const HTTP: seq<Byte> := [72, 84, 84, 80, 47]
  const DOT: Byte := 46

  /** HTAB, SP, VCHAR or obs-text. */
  predicate ReasonByte(b: Byte) {
    b == 9 || (0x20 <= b && b != 0x7F)
  }

  /** HTTP-version SP status-code SP [ reason-phrase ], the version as in section 2.3. */
  predicate RfcStatusLine(text: seq<Byte>, code: nat) {
    && |text| >= 13
    && text[..5] == HTTP && 48 <= text[5] <= 57 && text[6] == DOT && 48 <= text[7] <= 57
    && text[8] == 32
    && code < 1000 && text[9..12] == [48 + code / 100, 48 + code / 10 % 10, 48 + code % 10]
    && text[12] == 32
    && forall i :: 13 <= i < |text| ==> ReasonByte(text[i])
  }

  /** It would be a status line of the RFC, had the space after the code not been left out. */
  predicate LacksSpace(text: seq<Byte>, code: nat) {
    |text| == 12 && RfcStatusLine(text + [SP], code)
  }

  /** What the program asks beyond the grammar: HTTP/1.0 or 1.1, a code in range, plain UTF-8. */
  ghost predicate Supported(text: seq<Byte>, code: nat) {
    && |text| >= 8 && text[5] == 49 && (text[7] == 48 || text[7] == 49)
    && 100 <= code <= 599
    && PlainText(text)
  }

  lemma {:induction false} NoControlBytes(s: seq<Byte>)
    requires IsUtf8(s) && NoControls(s)
    ensures forall i :: 0 <= i < |s| ==> s[i] >= 0x20 && s[i] != 0x7F
    decreases |s|
  {
    if s != [] {
      var n := Utf8Length(s);
      NoControlBytes(s[n..]);
      assert forall i :: n <= i < |s| ==> s[i] == s[n..][i - n];
    }
  }

  lemma {:induction false} PlainAscii(s: seq<Byte>)
    requires forall b :: b in s ==> 0x20 <= b < 0x7F
    ensures IsUtf8(s) && NoControls(s)
  {
    if s != [] {
      assert s[0] in s && forall b :: b in s[1..] ==> b in s;
      PlainAscii(s[1..]);
    }
  }

  lemma {:induction false} AsciiPrefix(s: seq<Byte>, n: nat)
    requires n <= |s| && forall i :: 0 <= i < n ==> s[i] < 0x80
    ensures IsUtf8(s) == IsUtf8(s[n..])
    decreases n
  {
    if n > 0 {
      AsciiPrefix(s[1..], n - 1);
      assert s[1..][n - 1..] == s[n..];
    } else {
      assert s[0..] == s;
    }
  }

  lemma ThreeDigits(a: nat, b: nat, c: nat)
    requires a < 10 && b < 10 && c < 10
    ensures var n := 100 * a + 10 * b + c; n / 100 == a && n / 10 % 10 == b && n % 10 == c && n < 1000
  {
    assert (100 * a + 10 * b + c) / 10 == 10 * a + b;
  }

  /** Reading three digits undoes printing them. */
  lemma DigitsAre(digits: seq<Byte>, code: nat)
    requires |digits| == 3
    ensures code < 1000 && digits == [48 + code / 100, 48 + code / 10 % 10, 48 + code % 10] <==>
            && IsDigit(digits[0]) && IsDigit(digits[1]) && IsDigit(digits[2])
            && code == 100 * DigitOf(digits[0]) + 10 * DigitOf(digits[1]) + DigitOf(digits[2])
  {
    if IsDigit(digits[0]) && IsDigit(digits[1]) && IsDigit(digits[2]) {
      ThreeDigits(DigitOf(digits[0]), DigitOf(digits[1]), DigitOf(digits[2]));
    }
    assert digits == [digits[0], digits[1], digits[2]];
  }

  lemma CodeIs(text: seq<Byte>, code: nat)
    requires Shaped(text)
    ensures code == CodeIn(text) <==>
            code < 1000 && text[9..12] == [48 + code / 100, 48 + code / 10 % 10, 48 + code % 10]
  {
    DigitsAre(text[9..12], code);
  }

  lemma VersionIs(text: seq<Byte>)
    requires |text| >= 8
    ensures text[..7] == HTTP_1 <==> text[..5] == HTTP && text[5] == 49 && text[6] == DOT
  {
    assert text[..7] == text[..5] + [text[5], text[6]];
    assert HTTP_1 == HTTP + [49, DOT];
  }

  lemma WithSpace(text: seq<Byte>)
    requires |text| == 12
    ensures var t := text + [SP];
            |t| == 13 && t[..5] == text[..5] && t[9..12] == text[9..12] && t[12] == 32
            && forall i :: 0 <= i < 12 ==> t[i] == text[i]
  {
  }

  /** The shape is that of the RFC, or of the RFC without the last space, for versions 1.0 and 1.1. */
  lemma ShapedAgainstRfc(text: seq<Byte>, code: nat)
    requires forall i :: 0 <= i < |text| ==> text[i] >= 0x20 && text[i] != 0x7F
    ensures Shaped(text) && code == CodeIn(text) <==>
            && (RfcStatusLine(text, code) || LacksSpace(text, code))
            && text[5] == 49 && (text[7] == 48 || text[7] == 49)
  {
    hide IsDigit, CodeIn;
    if |text| >= 12 {
      VersionIs(text);
      DigitsAre(text[9..12], code);
      assert text[9..12][0] == text[9] && text[9..12][1] == text[10] && text[9..12][2] == text[11];
      if |text| == 12 { WithSpace(text); }
      if Shaped(text) { CodeIs(text, code); }
    }
  }

  lemma AcceptedAgainstRfc(text: seq<Byte>, code: nat)
    ensures Accepted(text, code) <==> (RfcStatusLine(text, code) || LacksSpace(text, code)) && Supported(text, code)
  {
    hide PlainText, Shaped, CodeIn, IsUtf8, NoControls;
    PlainTextIff(text);
    if PlainText(text) {
      NoControlBytes(text);
      ShapedAgainstRfc(text, code);
    }
  }

  /**
    * Acceptance against the RFC: the program accepts the status lines of the RFC, and those that lack
    * the space after the code at the end of the line, as far as it supports version, code and text.
    */
  lemma StatusLineAgainstRfc(line: seq<Byte>, text: seq<Byte>, code: nat)
    requires EndsWithCrlf(line)
    ensures ParseStatusLine(line) == Ok(StatusLine(text, code)) <==>
            && text == line[..|line| - 2] && Supported(text, code)
            && (RfcStatusLine(text, code) || LacksSpace(text, code))
  {
    hide ParseStatusLine, Accepted, RfcStatusLine, LacksSpace, Supported;
    StatusLineExact(line, text, code);
    AcceptedAgainstRfc(text, code);
  }

  /** `HTTP/v.w` and the digits of a code. */
  function ShortLine(major: Byte, minor: Byte, code: nat): seq<Byte>
    requires code < 1000
  {
    HTTP + [major, DOT, minor, SP, 48 + code / 100, 48 + code / 10 % 10, 48 + code % 10]
  }

  lemma ShortLineIs(major: Byte, minor: Byte, code: nat, rest: seq<Byte>)
    requires IsDigit(major) && IsDigit(minor) && code < 1000
    requires rest != [] ==> rest[0] == SP
    requires forall i :: 1 <= i < |rest| ==> ReasonByte(rest[i])
    ensures rest != [] ==> RfcStatusLine(ShortLine(major, minor, code) + rest, code)
    ensures rest == [] ==> LacksSpace(ShortLine(major, minor, code) + rest, code)
  {
    var text := ShortLine(major, minor, code) + rest;
    assert text[..5] == HTTP;
    assert |ShortLine(major, minor, code)| == 12;
    var t := text + [SP];
    assert t[..5] == HTTP;
    assert forall i :: 13 <= i < |text| ==> text[i] == rest[i - 12];
  }

  lemma {:induction false} ShortLineIsPlain(major: Byte, minor: Byte, code: nat, rest: seq<Byte>)
    requires IsDigit(major) && IsDigit(minor) && code < 1000
    requires forall b :: b in rest ==> 0x20 <= b < 0x7F
    ensures IsUtf8(ShortLine(major, minor, code) + rest) && NoControls(ShortLine(major, minor, code) + rest)
  {
    hide IsUtf8, NoControls;
    PlainAscii(ShortLine(major, minor, code) + rest);
  }

  /** One line of each kind: accepted against the RFC, and refused although it is in the RFC. */
  lemma Divergences(code: nat)
    ensures Accepted(ShortLine(49, 49, 200), 200) && !RfcStatusLine(ShortLine(49, 49, 200), 200)
    ensures RfcStatusLine(ShortLine(50, 48, 200) + [SP], 200) && !Accepted(ShortLine(50, 48, 200) + [SP], code)
    ensures RfcStatusLine(ShortLine(49, 49, 600) + [SP], 600) && !Accepted(ShortLine(49, 49, 600) + [SP], code)
    ensures RfcStatusLine(ShortLine(49, 49, 200) + [SP, 9], 200) && !Accepted(ShortLine(49, 49, 200) + [SP, 9], code)
    ensures RfcStatusLine(ShortLine(49, 49, 200) + [SP, 0x80], 200)
            && !Accepted(ShortLine(49, 49, 200) + [SP, 0x80], code)
  {
    hide IsUtf8, NoControls;
    var ok := ShortLine(49, 49, 200);
    ShortLineIs(49, 49, 200, []);
    ShortLineIsPlain(49, 49, 200, []);
    assert ok + [] == ok;
    PlainTextIff(ok);
    AcceptedAgainstRfc(ok, 200);
    ShortLineIs(50, 48, 200, [SP]);
    ShortLineIs(49, 49, 600, [SP]);
    TabIsRefused(code);
    LoneByteIsRefused(code);
    assert (ShortLine(50, 48, 200) + [SP])[..7][5] == 50;
    assert HTTP_1[5] == 49;
  }

  lemma TabIsRefused(code: nat)
    ensures RfcStatusLine(ShortLine(49, 49, 200) + [SP, 9], 200) && !Accepted(ShortLine(49, 49, 200) + [SP, 9], code)
  {
    hide IsUtf8, NoControls;
    var text := ShortLine(49, 49, 200) + [SP, 9];
    ShortLineIs(49, 49, 200, [SP, 9]);
    assert text[13] == 9;
    PlainTextIff(text);
    if IsUtf8(text) && NoControls(text) { NoControlBytes(text); }
  }

  lemma LoneByteIsRefused(code: nat)
    ensures RfcStatusLine(ShortLine(49, 49, 200) + [SP, 0x80], 200)
            && !Accepted(ShortLine(49, 49, 200) + [SP, 0x80], code)
  {
    hide NoControls;
    var text := ShortLine(49, 49, 200) + [SP, 0x80];
    ShortLineIs(49, 49, 200, [SP, 0x80]);
    PlainTextIff(text);
    AsciiPrefix(text, 13);
    assert text[13..] == [0x80];
  }
}
