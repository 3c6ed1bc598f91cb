/** Base64 as it is written into a Basic authorization header, and the decoder of RFC 4648. */
module Base64 {
  import opened Wrappers
  import opened Bytes

  type Sextet = v: int | 0 <= v < 64

  function Symbol(v: Sextet): char {
    if v < 26 then 'A' + v as char
    else if v < 52 then 'a' + (v - 26) as char
    else if v < 62 then '0' + (v - 52) as char
    else if v == 62 then '+'
    else '/'
  }

  /** The position of a symbol in the alphabet, if it is one. */
  function SextetOf(c: char): Option<Sextet> {
    if 'A' <= c <= 'Z' then Some(c as int - 65)
    else if 'a' <= c <= 'z' then Some(c as int - 97 + 26)
    else if '0' <= c <= '9' then Some(c as int - 48 + 52)
    else if c == '+' then Some(62)
    else if c == '/' then Some(63)
    else None
  }

  lemma SymbolDecodes(v: Sextet)
    ensures SextetOf(Symbol(v)) == Some(v) && Symbol(v) != '='
  {
    assert v < 26 ==> Symbol(v) as int == 65 + v;
    assert 26 <= v < 52 ==> Symbol(v) as int == 97 + v - 26;
    assert 52 <= v < 62 ==> Symbol(v) as int == 48 + v - 52;
  }

  // ----- One quantum: shifts and masks by powers of two are quotients and remainders -----

  function First(a: Byte): Sextet { a / 4 }

  function Second(a: Byte, b: Byte): Sextet { a % 4 * 16 + b / 16 }

  function Third(b: Byte, c: Byte): Sextet { b % 16 * 4 + c / 64 }

  function Fourth(c: Byte): Sextet { c % 64 }

  /** The four characters for one to three bytes; missing bytes count as zero and show as padding. */
  function Quantum(chunk: seq<Byte>): (q: string)
    requires 1 <= |chunk| <= 3
    ensures |q| == 4
  {
    var a := chunk[0];
    var b: Byte := if |chunk| > 1 then chunk[1] else 0;
    var c: Byte := if |chunk| > 2 then chunk[2] else 0;
    [Symbol(First(a)), Symbol(Second(a, b)),
     if |chunk| > 1 then Symbol(Third(b, c)) else '=',
     if |chunk| > 2 then Symbol(Fourth(c)) else '=']
  }

  function Encode(bytes: seq<Byte>): string
    decreases |bytes|
  {
    if bytes == [] then ""
    else if |bytes| < 3 then Quantum(bytes)
    else Quantum(bytes[..3]) + Encode(bytes[3..])
  }

  method EncodeText(bytes: seq<Byte>) returns (result: string)
    ensures result == Encode(bytes)
  {
    hide Quantum;
    result := "";
    var i := 0;
    while i < |bytes|
      invariant 0 <= i <= |bytes|
      invariant result + Encode(bytes[i..]) == Encode(bytes)
    {
      var end := if i + 3 <= |bytes| then i + 3 else |bytes|;
      var chunk := bytes[i..end];
      EncodeStep(bytes[i..], chunk);
      assert bytes[i..][|chunk|..] == bytes[end..];
      assert result + (Quantum(chunk) + Encode(bytes[end..])) == result + Quantum(chunk) + Encode(bytes[end..]);
      result := result + Quantum(chunk);
      i := end;
    }
  }

  lemma {:induction false} EncodeStep(bytes: seq<Byte>, chunk: seq<Byte>)
    requires bytes != [] && chunk == bytes[..if |bytes| < 3 then |bytes| else 3]
    ensures Encode(bytes) == Quantum(chunk) + Encode(bytes[|chunk|..])
  {
    hide Quantum;
    if |bytes| < 3 {
      assert chunk == bytes && bytes[|chunk|..] == [];
    }
  }

  // ----- Decoding (RFC 4648 section 4) ---------------------------------------------------

  function Byte1(u: Sextet, v: Sextet): Byte { u as int * 4 + v as int / 16 }

  function Byte2(v: Sextet, w: Sextet): Byte { v as int % 16 * 16 + w as int / 4 }

  function Byte3(w: Sextet, x: Sextet): Byte { w as int % 4 * 64 + x as int }

  lemma SextetsRecombine(a: Byte, b: Byte, c: Byte)
    ensures Byte1(First(a), Second(a, b)) == a
    ensures Byte2(Second(a, b), Third(b, c)) == b
    ensures Byte3(Third(b, c), Fourth(c)) == c
    ensures Second(a, 0) % 16 == 0 && Third(b, 0) % 4 == 0
  {
    FirstByteBack(a, b);
    SecondByteBack(a, b, c);
    ThirdByteBack(b, c);
  }

  lemma FirstByteBack(a: Byte, b: Byte)
    ensures Byte1(First(a), Second(a, b)) == a && Second(a, 0) % 16 == 0
  {
    assert (a as int % 4 * 16 + b as int / 16) / 16 == a as int % 4;
  }

  lemma SecondByteBack(a: Byte, b: Byte, c: Byte)
    ensures Byte2(Second(a, b), Third(b, c)) == b && Third(b, 0) % 4 == 0
  {
    assert (a as int % 4 * 16 + b as int / 16) % 16 == b as int / 16;
    assert (b as int % 16 * 4 + c as int / 64) / 4 == b as int % 16;
  }

  lemma ThirdByteBack(b: Byte, c: Byte)
    ensures Byte3(Third(b, c), Fourth(c)) == c
  {
    assert (b as int % 16 * 4 + c as int / 64) % 4 == c as int / 64;
  }

  /** The bytes of one quantum; padding must stand at its end, and unused bits must be zero. */
  function DecodeQuantum(q: string): Option<seq<Byte>>
    requires |q| == 4
  {
    match (SextetOf(q[0]), SextetOf(q[1]))
    case (Some(u), Some(v)) =>
      if q[2] == '=' && q[3] == '=' then if v % 16 == 0 then Some([Byte1(u, v)]) else None
      else (match (SextetOf(q[2]), SextetOf(q[3]))
            case (Some(w), Some(x)) => Some([Byte1(u, v), Byte2(v, w), Byte3(w, x)])
            case (Some(w), None) =>
              if q[3] == '=' && w % 4 == 0 then Some([Byte1(u, v), Byte2(v, w)]) else None
            case _ => None)
    case _ => None
  }

  /** Only the last quantum may be padded. */
  function Decode(text: string): Option<seq<Byte>>
    decreases |text|
  {
    if text == "" then Some([])
    else if |text| < 4 then None
    else match (DecodeQuantum(text[..4]), Decode(text[4..]))
         case (Some(bytes), Some(rest)) => if |bytes| < 3 && text[4..] != "" then None else Some(bytes + rest)
         case _ => None
  }

  lemma QuantumDecodes(chunk: seq<Byte>)
    requires 1 <= |chunk| <= 3
    ensures DecodeQuantum(Quantum(chunk)) == Some(chunk)
  {
    var a := chunk[0];
    var b: Byte := if |chunk| > 1 then chunk[1] else 0;
    var c: Byte := if |chunk| > 2 then chunk[2] else 0;
    SextetsRecombine(a, b, c);
    SymbolsDecode(First(a), Second(a, b), Third(b, c), Fourth(c));
    QuantumIs(chunk, a, b, c);
    hide *;
  }

  lemma QuantumIs(chunk: seq<Byte>, a: Byte, b: Byte, c: Byte)
    requires 1 <= |chunk| <= 3 && a == chunk[0]
    requires b == if |chunk| > 1 then chunk[1] else 0
    requires c == if |chunk| > 2 then chunk[2] else 0
    ensures |chunk| == 1 ==> chunk == [a] && b == 0
                             && Quantum(chunk) == [Symbol(First(a)), Symbol(Second(a, b)), '=', '=']
    ensures |chunk| == 2 ==> chunk == [a, b] && c == 0
                             && Quantum(chunk) == [Symbol(First(a)), Symbol(Second(a, b)), Symbol(Third(b, c)), '=']
    ensures |chunk| == 3 ==> chunk == [a, b, c]
                             && Quantum(chunk) ==
                                [Symbol(First(a)), Symbol(Second(a, b)), Symbol(Third(b, c)), Symbol(Fourth(c))]
  {
    hide Symbol, First, Second, Third, Fourth;
  }

  lemma SymbolsDecode(u: Sextet, v: Sextet, w: Sextet, x: Sextet)
    ensures v % 16 == 0 ==> DecodeQuantum([Symbol(u), Symbol(v), '=', '=']) == Some([Byte1(u, v)])
    ensures w % 4 == 0 ==> DecodeQuantum([Symbol(u), Symbol(v), Symbol(w), '=']) == Some([Byte1(u, v), Byte2(v, w)])
    ensures DecodeQuantum([Symbol(u), Symbol(v), Symbol(w), Symbol(x)]) == Some([Byte1(u, v), Byte2(v, w), Byte3(w, x)])
  {
    SymbolDecodes(u);
    SymbolDecodes(v);
    SymbolDecodes(w);
    SymbolDecodes(x);
    assert SextetOf('=') == None;
    hide Symbol, SextetOf, Byte1, Byte2, Byte3;
  }

  /** Decoding undoes encoding, for every sequence of bytes. */
  lemma {:induction false} DecodeEncode(bytes: seq<Byte>)
    ensures Decode(Encode(bytes)) == Some(bytes)
    decreases |bytes|
  {
    hide Quantum, DecodeQuantum;
    if bytes != [] {
      var n := if |bytes| < 3 then |bytes| else 3;
      var chunk, rest := bytes[..n], bytes[n..];
      EncodeStep(bytes, chunk);
      QuantumDecodes(chunk);
      DecodeEncode(rest);
      var text := Encode(bytes);
      assert text[..4] == Quantum(chunk) && text[4..] == Encode(rest);
      assert bytes == chunk + rest;
      assert n < 3 ==> rest == [];
    }
  }

  lemma SextetIsSymbol(c: char)
    requires SextetOf(c).Some?
    ensures Symbol(SextetOf(c).value) == c
  {
    var v := SextetOf(c).value as int;
    assert v < 26 ==> 'A' as int + v == c as int;
    assert 26 <= v < 52 ==> 'a' as int + (v - 26) == c as int;
    assert 52 <= v < 62 ==> '0' as int + (v - 52) == c as int;
  }

  lemma BytesRecombine(u: Sextet, v: Sextet, w: Sextet, x: Sextet)
    ensures First(Byte1(u, v)) == u && Fourth(Byte3(w, x)) == x
    ensures Second(Byte1(u, v), Byte2(v, w)) == v && Third(Byte2(v, w), Byte3(w, x)) == w
    ensures (v % 16 == 0 ==> Second(Byte1(u, v), 0) == v) && (w % 4 == 0 ==> Third(Byte2(v, w), 0) == w)
  {
  }

  /** A quantum that decodes is the one that its bytes encode to. */
  lemma QuantumIsCanonical(q: string)
    requires |q| == 4 && DecodeQuantum(q).Some?
    ensures 1 <= |DecodeQuantum(q).value| <= 3 && Quantum(DecodeQuantum(q).value) == q
  {
    hide Symbol, SextetOf, First, Second, Third, Fourth, Byte1, Byte2, Byte3;
    var u, v := SextetOf(q[0]).value, SextetOf(q[1]).value;
    var w: Sextet := if SextetOf(q[2]).Some? then SextetOf(q[2]).value else 0;
    var x: Sextet := if SextetOf(q[3]).Some? then SextetOf(q[3]).value else 0;
    SextetIsSymbol(q[0]);
    SextetIsSymbol(q[1]);
    if SextetOf(q[2]).Some? { SextetIsSymbol(q[2]); }
    if SextetOf(q[3]).Some? { SextetIsSymbol(q[3]); }
    BytesRecombine(u, v, w, x);
    PaddingIsNoSymbol();
    assert q == [q[0], q[1], q[2], q[3]];
  }

  lemma PaddingIsNoSymbol()
    ensures SextetOf('=') == None
  {
  }

  /** Nothing but encodings decodes: no other padding, no stray bits. */
  lemma {:induction false} DecodedIsEncoding(text: string)
    requires Decode(text).Some?
    ensures Encode(Decode(text).value) == text
    decreases |text|
  {
    hide Quantum, DecodeQuantum;
    if text != "" {
      var chunk, rest := DecodeQuantum(text[..4]).value, Decode(text[4..]).value;
      QuantumIsCanonical(text[..4]);
      DecodedIsEncoding(text[4..]);
      EncodeStep(chunk + rest, chunk);
      assert (chunk + rest)[|chunk|..] == rest;
      assert text == text[..4] + text[4..];
    }
  }

  /** `=` stands in the last `missing` places and nowhere else. */
  predicate Padded(text: string, missing: nat) {
    missing <= |text| && forall i :: 0 <= i < |text| ==> (text[i] == '=' <==> i >= |text| - missing)
  }

  lemma QuantumShape(chunk: seq<Byte>)
    requires 1 <= |chunk| <= 3
    ensures Padded(Quantum(chunk), 3 - |chunk|)
  {
    var a := chunk[0];
    var b: Byte := if |chunk| > 1 then chunk[1] else 0;
    var c: Byte := if |chunk| > 2 then chunk[2] else 0;
    SymbolDecodes(First(a));
    SymbolDecodes(Second(a, b));
    SymbolDecodes(Third(b, c));
    SymbolDecodes(Fourth(c));
    hide Symbol, SextetOf, First, Second, Third, Fourth;
  }

  lemma PaddedConcat(a: string, b: string, missing: nat)
    requires Padded(a, 0) && Padded(b, missing)
    ensures Padded(a + b, missing)
  {
  }

  /** Four characters for every three bytes begun, and `=` exactly where bytes are missing at the end. */
  lemma {:induction false} EncodedShape(bytes: seq<Byte>)
    ensures |Encode(bytes)| == (|bytes| + 2) / 3 * 4
    ensures Padded(Encode(bytes), (3 - |bytes| % 3) % 3)
    decreases |bytes|
  {
    hide Quantum, Padded;
    if bytes == [] {
      NothingPadded();
    } else {
      var n := if |bytes| < 3 then |bytes| else 3;
      var chunk, rest := bytes[..n], bytes[n..];
      EncodeStep(bytes, chunk);
      QuantumShape(chunk);
      if n < 3 {
        assert Encode(rest) == "" && Encode(bytes) == Quantum(chunk);
      } else {
        EncodedShape(rest);
        PaddedConcat(Quantum(chunk), Encode(rest), (3 - |rest| % 3) % 3);
      }
    }
  }

  lemma NothingPadded()
    ensures Padded("", 0)
  {
  }
}
