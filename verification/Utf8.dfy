/** UTF-8 (RFC 3629): the octets that spell Unicode scalar values, and nothing else, are well formed. */
module Utf8 {
  import opened Bytes

  /** Code points without the surrogates. */
  type Scalar = c: int | 0 <= c < 0x11_0000 && !(0xD800 <= c < 0xE000) witness 0

  /** RFC 3629 section 3: the octets of one character. */
  function Spell(c: Scalar): (s: seq<Byte>)
    ensures 1 <= |s| <= 4
  {
    if c < 0x80 then [c]
    else if c < 0x800 then [0xC0 + c / 0x40, 0x80 + c % 0x40]
    else if c < 0x1_0000 then [0xE0 + c / 0x1000, 0x80 + c / 0x40 % 0x40, 0x80 + c % 0x40]
    else [0xF0 + c / 0x4_0000, 0x80 + c / 0x1000 % 0x40, 0x80 + c / 0x40 % 0x40, 0x80 + c % 0x40]
  }

  function SpellAll(text: seq<Scalar>): seq<Byte> {
    if text == [] then [] else Spell(text[0]) + SpellAll(text[1..])
  }

  /** The first octets alone tell how many there are. */
  lemma LengthIsLocal(s: seq<Byte>, rest: seq<Byte>)
    requires s != [] && Utf8Length(s) == |s|
    ensures Utf8Length(s + rest) == |s|
  {
  }

  lemma ThreeSpelled(c: Scalar)
    requires 0x800 <= c < 0x1_0000
    ensures Utf8Length(Spell(c)) == 3
  {
    var lead, middle := c / 0x1000, c / 0x40 % 0x40;
    assert lead < 0x10 && c / 0x40 == lead * 0x40 + middle;
    assert lead == 0 ==> middle >= 0x20;
    assert lead == 0xD ==> middle < 0x20;
  }

  lemma FourSpelled(c: Scalar)
    requires 0x1_0000 <= c
    ensures Utf8Length(Spell(c)) == 4
  {
    var lead, second := c / 0x4_0000, c / 0x1000 % 0x40;
    assert lead <= 4 && c / 0x1000 == lead * 0x40 + second;
    assert lead == 0 ==> second >= 0x10;
    assert lead == 4 ==> second < 0x10;
  }

  lemma SpelledAlone(c: Scalar)
    ensures Utf8Length(Spell(c)) == |Spell(c)|
  {
    if c >= 0x1_0000 {
      FourSpelled(c);
    } else if c >= 0x800 {
      ThreeSpelled(c);
    }
  }

  lemma SpelledLength(c: Scalar, rest: seq<Byte>)
    ensures Utf8Length(Spell(c) + rest) == |Spell(c)|
    ensures (Spell(c) + rest)[|Spell(c)|..] == rest
  {
    hide Spell, Utf8Length;
    SpelledAlone(c);
    LengthIsLocal(Spell(c), rest);
  }

  lemma TwoOctets(a: Byte, x: Byte) returns (c: Scalar)
    requires Utf8Length([a, x]) == 2
    ensures Spell(c) == [a, x]
  {
    c := (a as int - 0xC0) * 0x40 + x as int - 0x80;
  }

  lemma ThreeOctets(a: Byte, x: Byte, y: Byte) returns (c: Scalar)
    requires Utf8Length([a, x, y]) == 3
    ensures Spell(c) == [a, x, y]
  {
    var high := (a as int - 0xE0) * 0x40 + x as int - 0x80;
    c := high * 0x40 + y as int - 0x80;
    assert c / 0x40 == high && c % 0x40 == y as int - 0x80;
    assert c / 0x1000 == high / 0x40;
  }

  lemma FourOctets(a: Byte, x: Byte, y: Byte, z: Byte) returns (c: Scalar)
    requires Utf8Length([a, x, y, z]) == 4
    ensures Spell(c) == [a, x, y, z]
  {
    var high := (a as int - 0xF0) * 0x40 + x as int - 0x80;
    var middle := high * 0x40 + y as int - 0x80;
    c := middle * 0x40 + z as int - 0x80;
    assert c / 0x40 == middle && c % 0x40 == z as int - 0x80;
    assert c / 0x1000 == middle / 0x40 == high && middle % 0x40 == y as int - 0x80;
    assert c / 0x4_0000 == high / 0x40;
  }

  /** The character that well-formed octets begin with. */
  lemma FirstCharacter(s: seq<Byte>) returns (c: Scalar)
    requires s != [] && Utf8Length(s) > 0
    ensures s == Spell(c) + s[Utf8Length(s)..] && |Spell(c)| == Utf8Length(s)
  {
    var n := Utf8Length(s);
    if n == 1 {
      c := s[0];
    } else if n == 2 {
      c := TwoOctets(s[0], s[1]);
    } else if n == 3 {
      c := ThreeOctets(s[0], s[1], s[2]);
    } else {
      c := FourOctets(s[0], s[1], s[2], s[3]);
    }
    hide Spell, Utf8Length;
    assert s == s[..n] + s[n..];
    assert Spell(c) == s[..n];
  }

  lemma {:induction false} SpelledIsUtf8(text: seq<Scalar>)
    ensures IsUtf8(SpellAll(text))
    decreases |text|
  {
    if text != [] {
      SpelledIsUtf8(text[1..]);
      SpelledLength(text[0], SpellAll(text[1..]));
    }
  }

  lemma {:induction false} Utf8IsSpelled(s: seq<Byte>) returns (text: seq<Scalar>)
    requires IsUtf8(s)
    ensures s == SpellAll(text)
    decreases |s|
  {
    if s == [] {
      text := [];
    } else {
      var c := FirstCharacter(s);
      var rest := Utf8IsSpelled(s[Utf8Length(s)..]);
      text := [c] + rest;
      assert text[1..] == rest;
    }
  }

  /** The octets accepted as text are exactly those that spell some characters. */
  lemma {:induction false} Utf8Exactly(s: seq<Byte>)
    ensures IsUtf8(s) <==> exists text :: s == SpellAll(text)
  {
    if IsUtf8(s) {
      var text := Utf8IsSpelled(s);
    }
    forall text ensures IsUtf8(SpellAll(text)) {
      SpelledIsUtf8(text);
    }
  }

  /** General category Cc. */
  predicate IsControlCode(c: Scalar) {
    c < 0x20 || 0x7F <= c < 0xA0
  }

  lemma ControlStarts(c: Scalar, rest: seq<Byte>)
    ensures StartsControl(Spell(c) + rest) <==> IsControlCode(c)
  {
  }

  /** Text passes as free of controls exactly when none of its characters is a control. */
  lemma {:induction false} ControlsExactly(text: seq<Scalar>)
    requires IsUtf8(SpellAll(text))
    ensures NoControls(SpellAll(text)) <==> forall c :: c in text ==> !IsControlCode(c)
    decreases |text|
  {
    if text != [] {
      var c, rest := text[0], text[1..];
      SpelledLength(c, SpellAll(rest));
      ControlStarts(c, SpellAll(rest));
      ControlsExactly(rest);
      assert text == [c] + rest;
    }
  }
}
