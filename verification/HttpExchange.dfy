/** One request's answer: informational responses are skipped, the first other status line counts. */
module HttpExchange {
  import opened Wrappers
  import opened Sequences
  import opened Bytes
  import opened Http

  predicate IsInformational(code: nat) {
    100 <= code < 200 && code != 101
  }

  // ----- Specification over the bytes still to be read -----------------------------------

  /** Read header lines until the empty one; `total` header bytes have been read before. */
  ghost function Drain(input: seq<Byte>, total: nat): (r: (Result<(), HttpError>, seq<Byte>))
    ensures |r.1| <= |input|
    decreases |input|
  {
    var (line, rest) := ReadLine(input, MAX_HEADER_LINE_BYTES);
    if line.Err? then (Err(line.error), rest)
    else if total + |line.value| > MAX_INFORMATIONAL_HEADER_BYTES then (Err(HeadersTooLong), rest)
    else if line.value == CRLF then (Ok(()), rest)
    else Drain(rest, total + |line.value|)
  }

  /** The answer when `count` informational responses have been skipped already. */
  ghost function Answer(input: seq<Byte>, count: nat): (r: (Result<StatusLine, HttpError>, seq<Byte>))
    requires count <= MAX_INFORMATIONAL_RESPONSES
    ensures |r.1| <= |input|
    decreases MAX_INFORMATIONAL_RESPONSES - count
  {
    var (line, rest) := ReadLine(input, MAX_STATUS_LINE_BYTES);
    if line.Err? then (Err(line.error), rest)
    else
      var status := ParseStatusLine(line.value);
      if status.Err? then (Err(status.error), rest)
      else if !IsInformational(status.value.code) then (Ok(status.value), rest)
      else if count == MAX_INFORMATIONAL_RESPONSES then (Err(TooManyInformational), rest)
      else
        var (drained, after) := Drain(rest, 0);
        if drained.Err? then (Err(drained.error), after) else Answer(after, count + 1)
  }

  // ----- The loops over a reader ---------------------------------------------------------

  class Reader {
    var unread: seq<Byte>

    constructor (input: seq<Byte>)
      ensures unread == input
    {
      unread := input;
    }

    method ReadCrlfLine(max: nat) returns (line: Result<seq<Byte>, HttpError>)
      modifies this
      ensures (line, unread) == ReadLine(old(unread), max)
    {
      var limit := Min(|unread|, max + 1);
      var n := 0;
      while n < limit && (n == 0 || unread[n - 1] != LF)
        invariant 0 <= n <= limit
        invariant forall i :: 0 <= i < n - 1 ==> unread[i] != LF
      {
        n := n + 1;
      }
      assert StopsAt(unread, max + 1, n);
      var bytes := unread[..n];
      unread := unread[n..];
      if bytes == [] { return Err(ClosedEarly); }
      if |bytes| > max { return Err(LineTooLong); }
      if !EndsWithCrlf(bytes) { return Err(NotCrlf); }
      return Ok(bytes);
    }

    method DrainHeaders() returns (drained: Result<(), HttpError>)
      modifies this
      ensures (drained, unread) == Drain(old(unread), 0)
    {
      var total := 0;
      while true
        invariant 0 <= total && Drain(unread, total) == Drain(old(unread), 0)
        decreases |unread|
      {
        var line := ReadCrlfLine(MAX_HEADER_LINE_BYTES);
        if line.Err? { return Err(line.error); }
        total := total + |line.value|;
        if total > MAX_INFORMATIONAL_HEADER_BYTES { return Err(HeadersTooLong); }
        if line.value == CRLF { return Ok(()); }
      }
    }

    method Exchange() returns (answer: Result<StatusLine, HttpError>)
      modifies this
      ensures (answer, unread) == Answer(old(unread), 0)
    {
      for count := 0 to MAX_INFORMATIONAL_RESPONSES + 1
        invariant count <= MAX_INFORMATIONAL_RESPONSES && Answer(unread, count) == Answer(old(unread), 0)
      {
        var line := ReadCrlfLine(MAX_STATUS_LINE_BYTES);
        if line.Err? { return Err(line.error); }
        var status := ParseStatusLine(line.value);
        if status.Err? { return status; }
        if IsInformational(status.value.code) {
          if count == MAX_INFORMATIONAL_RESPONSES { return Err(TooManyInformational); }
          var drained := DrainHeaders();
          if drained.Err? { return Err(drained.error); }
        } else {
          return status;
        }
      }
    }
  }

  // ----- What is read, on any stream -----------------------------------------------------

  const DRAIN_BOUND: nat := MAX_INFORMATIONAL_HEADER_BYTES + MAX_HEADER_LINE_BYTES + 1
  const ROUND_BOUND: nat := MAX_STATUS_LINE_BYTES + 1 + DRAIN_BOUND

  lemma {:induction false} DrainBounded(input: seq<Byte>, total: nat)
    requires total <= MAX_INFORMATIONAL_HEADER_BYTES
    ensures |input| - |Drain(input, total).1| <= DRAIN_BOUND - total
    decreases |input|
  {
    var (line, rest) := ReadLine(input, MAX_HEADER_LINE_BYTES);
    if line.Ok? && total + |line.value| <= MAX_INFORMATIONAL_HEADER_BYTES && line.value != CRLF {
      DrainBounded(rest, total + |line.value|);
    }
  }

  function BoundFrom(count: nat): nat
    requires count <= MAX_INFORMATIONAL_RESPONSES
    decreases MAX_INFORMATIONAL_RESPONSES - count
  {
    if count == MAX_INFORMATIONAL_RESPONSES then MAX_STATUS_LINE_BYTES + 1
    else ROUND_BOUND + BoundFrom(count + 1)
  }

  /** One round: the exchange is over within the bound, or goes on with what is left. */
  lemma OneRound(input: seq<Byte>, count: nat) returns (after: seq<Byte>)
    requires count <= MAX_INFORMATIONAL_RESPONSES
    ensures |input| - |after| <= if count == MAX_INFORMATIONAL_RESPONSES then MAX_STATUS_LINE_BYTES + 1 else ROUND_BOUND
    ensures |Answer(input, count).1| == |after|
            || (count < MAX_INFORMATIONAL_RESPONSES && Answer(input, count) == Answer(after, count + 1))
  {
    var line, rest := ReadLine(input, MAX_STATUS_LINE_BYTES).0, ReadLine(input, MAX_STATUS_LINE_BYTES).1;
    after := rest;
    if line.Ok? && count < MAX_INFORMATIONAL_RESPONSES {
      var status := ParseStatusLine(line.value);
      if status.Ok? && IsInformational(status.value.code) {
        DrainBounded(rest, 0);
        after := Drain(rest, 0).1;
      }
    }
  }

  lemma {:induction false} AnswerBoundedFrom(input: seq<Byte>, count: nat)
    requires count <= MAX_INFORMATIONAL_RESPONSES
    ensures |input| - |Answer(input, count).1| <= BoundFrom(count)
    decreases MAX_INFORMATIONAL_RESPONSES - count
  {
    hide Answer, ParseStatusLine;
    var after := OneRound(input, count);
    if count < MAX_INFORMATIONAL_RESPONSES {
      AnswerBoundedFrom(after, count + 1);
    }
  }

  lemma BoundIs()
    ensures BoundFrom(0) == 663569
  {
    assert BoundFrom(8) == 8193;
    assert BoundFrom(6) == 172037;
    assert BoundFrom(4) == 335881;
    assert BoundFrom(2) == 499725;
  }

  /** The exchange takes at most 663569 bytes from its reader, whatever the server sends. */
  lemma {:induction false} AnswerBounded(input: seq<Byte>)
    ensures |input| - |Answer(input, 0).1| <= 663569
  {
    AnswerBoundedFrom(input, 0);
    BoundIs();
  }

  // ----- Well-formed traffic -------------------------------------------------------------

  datatype Response = Response(status: seq<Byte>, headers: seq<seq<Byte>>)

  function Flat(lines: seq<seq<Byte>>): seq<Byte> {
    if lines == [] then [] else lines[0] + Flat(lines[1..])
  }

  predicate HeaderLines(headers: seq<seq<Byte>>) {
    forall h :: h in headers ==> WireLine(h, MAX_HEADER_LINE_BYTES) && h != CRLF
  }

  predicate StatusWire(line: seq<Byte>) {
    WireLine(line, MAX_STATUS_LINE_BYTES) && ParseStatusLine(line).Ok?
  }

  /** A well-formed informational response within the limits. */
  predicate Interim(r: Response) {
    && StatusWire(r.status) && IsInformational(ParseStatusLine(r.status).value.code)
    && HeaderLines(r.headers) && |Flat(r.headers)| + 2 <= MAX_INFORMATIONAL_HEADER_BYTES
  }

  predicate AllInterim(rs: seq<Response>) {
    forall r :: r in rs ==> Interim(r)
  }

  predicate FinalLine(line: seq<Byte>) {
    StatusWire(line) && !IsInformational(ParseStatusLine(line).value.code)
  }

  function Encode(r: Response): seq<Byte> {
    r.status + Flat(r.headers) + CRLF
  }

  function EncodeAll(rs: seq<Response>): seq<Byte> {
    if rs == [] then [] else Encode(rs[0]) + EncodeAll(rs[1..])
  }

  lemma {:induction false} DrainLine(line: seq<Byte>, rest: seq<Byte>, total: nat)
    requires WireLine(line, MAX_HEADER_LINE_BYTES) && total + |line| <= MAX_INFORMATIONAL_HEADER_BYTES
    ensures Drain(line + rest, total) == if line == CRLF then (Ok(()), rest) else Drain(rest, total + |line|)
  {
    ReadLineExact(line + rest, MAX_HEADER_LINE_BYTES, line, rest);
  }

  lemma {:induction false} FlatFirst(headers: seq<seq<Byte>>, tail: seq<Byte>)
    requires headers != []
    ensures Flat(headers) + tail == headers[0] + (Flat(headers[1..]) + tail)
  {
  }

  lemma CrlfIsLine()
    ensures WireLine(CRLF, MAX_HEADER_LINE_BYTES)
  {
  }

  lemma {:induction false} DrainAccepts(headers: seq<seq<Byte>>, tail: seq<Byte>, total: nat)
    requires HeaderLines(headers) && total + |Flat(headers)| + 2 <= MAX_INFORMATIONAL_HEADER_BYTES
    ensures Drain(Flat(headers) + (CRLF + tail), total) == (Ok(()), tail)
    decreases |headers|
  {
    hide Drain, WireLine;
    if headers == [] {
      assert WireLine(CRLF, MAX_HEADER_LINE_BYTES) by { CrlfIsLine(); }
      assert Flat(headers) + (CRLF + tail) == CRLF + tail;
      DrainLine(CRLF, tail, total);
    } else {
      assert headers[0] in headers && forall h :: h in headers[1..] ==> h in headers;
      FlatFirst(headers, CRLF + tail);
      DrainLine(headers[0], Flat(headers[1..]) + (CRLF + tail), total);
      DrainAccepts(headers[1..], tail, total + |headers[0]|);
    }
  }

  lemma DrainStep(input: seq<Byte>, total: nat) returns (line: seq<Byte>, rest: seq<Byte>)
    requires Drain(input, total).0.Ok?
    ensures WireLine(line, MAX_HEADER_LINE_BYTES) && input == line + rest && |rest| < |input|
    ensures total + |line| <= MAX_INFORMATIONAL_HEADER_BYTES
    ensures Drain(input, total) == if line == CRLF then (Ok(()), rest) else Drain(rest, total + |line|)
  {
    line, rest := ReadLine(input, MAX_HEADER_LINE_BYTES).0.value, ReadLine(input, MAX_HEADER_LINE_BYTES).1;
    ReadLineExact(input, MAX_HEADER_LINE_BYTES, line, rest);
  }

  lemma {:induction false} DrainOnlyAccepts(input: seq<Byte>, total: nat) returns (headers: seq<seq<Byte>>)
    requires Drain(input, total).0.Ok?
    ensures HeaderLines(headers) && total + |Flat(headers)| + 2 <= MAX_INFORMATIONAL_HEADER_BYTES
    ensures input == Flat(headers) + (CRLF + Drain(input, total).1)
    decreases |input|
  {
    var line, rest := DrainStep(input, total);
    if line == CRLF {
      headers := [];
      assert Flat(headers) + (CRLF + rest) == CRLF + rest;
    } else {
      var others := DrainOnlyAccepts(rest, total + |line|);
      headers := [line] + others;
      assert headers[1..] == others;
      FlatFirst(headers, CRLF + Drain(input, total).1);
    }
  }

  /** What becomes of a complete status line, and of the bytes after it. */
  lemma {:induction false} AnswerLine(line: seq<Byte>, rest: seq<Byte>, count: nat)
    requires StatusWire(line) && count <= MAX_INFORMATIONAL_RESPONSES
    ensures Answer(line + rest, count) ==
            if FinalLine(line) then (ParseStatusLine(line), rest)
            else if count == MAX_INFORMATIONAL_RESPONSES then (Err(TooManyInformational), rest)
            else if Drain(rest, 0).0.Err? then (Err(Drain(rest, 0).0.error), Drain(rest, 0).1)
            else Answer(Drain(rest, 0).1, count + 1)
  {
    ReadLineExact(line + rest, MAX_STATUS_LINE_BYTES, line, rest);
  }

  lemma AnswerStep(input: seq<Byte>, count: nat) returns (line: seq<Byte>, rest: seq<Byte>)
    requires count <= MAX_INFORMATIONAL_RESPONSES && Answer(input, count).0.Ok?
    ensures StatusWire(line) && input == line + rest
  {
    line, rest := ReadLine(input, MAX_STATUS_LINE_BYTES).0.value, ReadLine(input, MAX_STATUS_LINE_BYTES).1;
    ReadLineExact(input, MAX_STATUS_LINE_BYTES, line, rest);
  }

  lemma EncodeFirst(r: Response, tail: seq<Byte>)
    ensures Encode(r) + tail == r.status + (Flat(r.headers) + (CRLF + tail))
  {
  }

  lemma {:induction false} AnswerSkips(r: Response, tail: seq<Byte>, count: nat)
    requires Interim(r) && count < MAX_INFORMATIONAL_RESPONSES
    ensures Answer(Encode(r) + tail, count) == Answer(tail, count + 1)
  {
    EncodeFirst(r, tail);
    DrainAccepts(r.headers, tail, 0);
    AnswerLine(r.status, Flat(r.headers) + (CRLF + tail), count);
  }

  lemma {:induction false} EncodeAllFirst(rs: seq<Response>, tail: seq<Byte>)
    requires rs != []
    ensures EncodeAll(rs) + tail == Encode(rs[0]) + (EncodeAll(rs[1..]) + tail)
  {
  }

  /** Up to eight interim responses are skipped; the answer is the line that follows them. */
  lemma {:induction false} FinalLineReturned(rs: seq<Response>, line: seq<Byte>, tail: seq<Byte>, count: nat)
    requires AllInterim(rs) && FinalLine(line) && count + |rs| <= MAX_INFORMATIONAL_RESPONSES
    ensures Answer(EncodeAll(rs) + (line + tail), count) == (ParseStatusLine(line), tail)
    decreases |rs|
  {
    hide Answer, ParseStatusLine;
    if rs == [] {
      assert EncodeAll(rs) + (line + tail) == line + tail;
      AnswerLine(line, tail, count);
    } else {
      assert rs[0] in rs && forall r :: r in rs[1..] ==> r in rs;
      EncodeAllFirst(rs, line + tail);
      AnswerSkips(rs[0], EncodeAll(rs[1..]) + (line + tail), count);
      FinalLineReturned(rs[1..], line, tail, count + 1);
    }
  }

  /** A ninth interim response is an error, whatever follows. */
  lemma {:induction false} NinthInterimRejected(rs: seq<Response>, tail: seq<Byte>, count: nat)
    requires AllInterim(rs) && count <= MAX_INFORMATIONAL_RESPONSES
    requires count + |rs| > MAX_INFORMATIONAL_RESPONSES
    ensures Answer(EncodeAll(rs) + tail, count).0 == Err(TooManyInformational)
    decreases |rs|
  {
    hide Answer, ParseStatusLine, Interim, Encode, EncodeAll;
    var rest := EncodeAll(rs[1..]) + tail;
    assert rs[0] in rs && forall r :: r in rs[1..] ==> r in rs;
    EncodeAllFirst(rs, tail);
    if count == MAX_INFORMATIONAL_RESPONSES {
      InterimTooLate(rs[0], rest);
    } else {
      AnswerSkips(rs[0], rest, count);
      NinthInterimRejected(rs[1..], tail, count + 1);
    }
  }

  lemma {:induction false} InterimTooLate(r: Response, rest: seq<Byte>)
    requires Interim(r)
    ensures Answer(Encode(r) + rest, MAX_INFORMATIONAL_RESPONSES).0 == Err(TooManyInformational)
  {
    EncodeFirst(r, rest);
    AnswerLine(r.status, Flat(r.headers) + (CRLF + rest), MAX_INFORMATIONAL_RESPONSES);
  }

  lemma FinalCode(line: seq<Byte>)
    requires FinalLine(line)
    ensures var code := ParseStatusLine(line).value.code; code == 101 || 200 <= code <= 599
  {
  }

  /** Nothing else is accepted: a successful exchange has read exactly such a stream. */
  lemma {:induction false} AcceptedStreams(input: seq<Byte>, count: nat)
    returns (rs: seq<Response>, line: seq<Byte>)
    requires count <= MAX_INFORMATIONAL_RESPONSES && Answer(input, count).0.Ok?
    ensures AllInterim(rs) && FinalLine(line) && count + |rs| <= MAX_INFORMATIONAL_RESPONSES
    ensures input == EncodeAll(rs) + (line + Answer(input, count).1)
    ensures Answer(input, count).0 == ParseStatusLine(line)
    ensures var code := Answer(input, count).0.value.code; code == 101 || 200 <= code <= 599
    decreases MAX_INFORMATIONAL_RESPONSES - count
  {
    hide Answer, ParseStatusLine;
    var first, rest := AnswerStep(input, count);
    AnswerLine(first, rest, count);
    if FinalLine(first) {
      rs, line := [], first;
      assert EncodeAll(rs) + (line + rest) == line + rest;
      FinalCode(line);
    } else {
      var r, after := SkippedResponse(first, rest, count);
      var others;
      others, line := AcceptedStreams(after, count + 1);
      rs := [r] + others;
      assert rs[1..] == others;
      EncodeAllFirst(rs, line + Answer(after, count + 1).1);
    }
  }

  lemma SkippedResponse(first: seq<Byte>, rest: seq<Byte>, count: nat) returns (r: Response, after: seq<Byte>)
    requires StatusWire(first) && !FinalLine(first) && count <= MAX_INFORMATIONAL_RESPONSES
    requires Answer(first + rest, count).0.Ok?
    ensures count < MAX_INFORMATIONAL_RESPONSES
    ensures Interim(r) && first + rest == Encode(r) + after
    ensures Answer(first + rest, count) == Answer(after, count + 1)
  {
    AnswerLine(first, rest, count);
    after := Drain(rest, 0).1;
    var headers := DrainOnlyAccepts(rest, 0);
    r := Response(first, headers);
    EncodeFirst(r, after);
  }

  // ----- The HTTP evidence ---------------------------------------------------------------

  datatype Verdict = Passed(code: nat) | Warned(code: nat) | NoAnswer

  /** The status recorded for an exchange: any answer is reachability, 400 and above a warning. */
  function VerdictOf(answer: Result<StatusLine, HttpError>): Verdict {
    match answer
    case Ok(s) => if s.code >= 400 then Warned(s.code) else Passed(s.code)
    case Err(_) => NoAnswer
  }

  predicate CanBe(v: Verdict) {
    match v
    case Passed(code) => code == 101 || 200 <= code < 400
    case Warned(code) => 400 <= code < 600
    case NoAnswer => true
  }

  /** The verdicts that an exchange can come to. */
  type ExchangeVerdict = v: Verdict | CanBe(v) witness NoAnswer

  /** A final status line with the given code. */
  function LineOf(code: nat): seq<Byte>
    requires code < 1000
  {
    ShortLine(49, 49, code) + [SP] + CRLF
  }

  lemma LineOfIsFinal(code: nat)
    requires code == 101 || 200 <= code < 600
    ensures FinalLine(LineOf(code)) && ParseStatusLine(LineOf(code)).Ok?
    ensures ParseStatusLine(LineOf(code)).value.code == code
  {
    hide IsUtf8, NoControls, ParseStatusLine;
    var text := ShortLine(49, 49, code) + [SP];
    ShortLineIs(49, 49, code, [SP]);
    ShortLineIsPlain(49, 49, code, [SP]);
    PlainTextIff(text);
    assert LineOf(code)[..|LineOf(code)| - 2] == text;
    StatusLineAgainstRfc(LineOf(code), text, code);
  }

  /** An exchange over this stream comes to this verdict. */
  ghost predicate Yields(input: seq<Byte>, v: Verdict) {
    VerdictOf(Answer(input, 0).0) == v
  }

  lemma YieldedCanBe(input: seq<Byte>, v: Verdict)
    requires Yields(input, v)
    ensures CanBe(v)
  {
    hide Answer, ParseStatusLine, FinalLine;
    if Answer(input, 0).0.Ok? {
      var rs, line := AcceptedStreams(input, 0);
    }
  }

  lemma CanBeYielded(v: Verdict) returns (input: seq<Byte>)
    requires CanBe(v)
    ensures Yields(input, v)
  {
    hide Answer, ParseStatusLine, FinalLine, LineOf;
    if v.NoAnswer? {
      input := [];
      NothingAnswered();
    } else {
      input := EncodeAll([]) + (LineOf(v.code) + []);
      LineOfIsFinal(v.code);
      FinalLineReturned([], LineOf(v.code), [], 0);
    }
  }

  lemma NothingAnswered()
    ensures Answer([], 0).0.Err?
  {
  }

  /** Some stream yields a verdict exactly when it is one of these. */
  lemma VerdictsExactly(v: Verdict)
    ensures CanBe(v) <==> exists input :: Yields(input, v)
  {
    hide Yields, CanBe;
    if CanBe(v) {
      var input := CanBeYielded(v);
    }
    forall input | Yields(input, v) ensures CanBe(v) {
      YieldedCanBe(input, v);
    }
  }
}
