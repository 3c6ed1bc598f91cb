/** The pseudonym hash (64-bit FNV-1a) and the replacement of addresses. */
module Redaction {
  import opened Text
  import opened Bits
  import opened Bytes
  import opened Evidence

  type U64 = h: int | 0 <= h < 0x1_0000_0000_0000_0000

  const OFFSET_BASIS: U64 := 0xcbf2_9ce4_8422_2325
  const PRIME: U64 := 0x0000_0100_0000_01b3

  /** The inverse of the prime modulo 2^64. */
  const PRIME_INVERSE: U64 := 0xce96_5057_aff6_957b

  /** A byte is widened with zeros before it is mixed in. */
  function XorByte(h: U64, b: Byte): U64 {
    XorBounded(h, b, 64);
    Power2Of64();
    Xor(h, b, 64)
  }

  function WrappingMul(a: U64, b: U64): U64 {
    (a * b) % 0x1_0000_0000_0000_0000
  }

  function Step(h: U64, b: Byte): U64 {
    WrappingMul(XorByte(h, b), PRIME)
  }

  function HashFrom(h: U64, bytes: seq<Byte>): U64
    decreases |bytes|
  {
    if bytes == [] then h else HashFrom(Step(h, bytes[0]), bytes[1..])
  }

  method StableHash(bytes: seq<Byte>) returns (hash: U64)
    ensures hash == HashFrom(OFFSET_BASIS, bytes)
  {
    hide WrappingMul, XorByte;
    hash := OFFSET_BASIS;
    for i := 0 to |bytes|
      invariant HashFrom(hash, bytes[i..]) == HashFrom(OFFSET_BASIS, bytes)
    {
      assert bytes[i..][0] == bytes[i] && bytes[i..][1..] == bytes[i + 1..];
      var mixed := XorByte(hash, bytes[i]);
      hash := WrappingMul(mixed, PRIME);
    }
  }

  // ----- The step is a bijection ---------------------------------------------------------

  lemma XorByteUndone(h: U64, b: Byte)
    ensures XorByte(XorByte(h, b), b) == h
  {
    hide Xor, Power2;
    Power2Of64();
    XorTwice(h, b, 64);
  }

  lemma ReduceFactor(a: nat, b: nat)
    ensures (a % 0x1_0000_0000_0000_0000) * b % 0x1_0000_0000_0000_0000 == a * b % 0x1_0000_0000_0000_0000
  {
    var q, r := a / 0x1_0000_0000_0000_0000, a % 0x1_0000_0000_0000_0000;
    var k := q * b;
    assert a * b == r * b + k * 0x1_0000_0000_0000_0000 by {
      assert a == q * 0x1_0000_0000_0000_0000 + r;
      assert a * b == (q * 0x1_0000_0000_0000_0000) * b + r * b;
      assert (q * 0x1_0000_0000_0000_0000) * b == (q * b) * 0x1_0000_0000_0000_0000;
    }
    AddMultiple(r * b, k);
  }

  lemma AddMultiple(x: nat, k: nat)
    ensures (x + k * 0x1_0000_0000_0000_0000) % 0x1_0000_0000_0000_0000 == x % 0x1_0000_0000_0000_0000
  {
  }

  lemma MulUndone(x: U64, p: U64, i: U64, k: nat)
    requires p * i == 1 + k * 0x1_0000_0000_0000_0000
    ensures WrappingMul(WrappingMul(x, p), i) == x
  {
    ReduceFactor(x * p, i);
    assert x * p * i == x * (p * i);
    assert x * (1 + k * 0x1_0000_0000_0000_0000) == x + (x * k) * 0x1_0000_0000_0000_0000;
    AddMultiple(x, x * k);
  }

  /** The step taken backwards. */
  function StepBack(h: U64, b: Byte): U64 {
    XorByte(WrappingMul(h, PRIME_INVERSE), b)
  }

  /** For every byte the step is a bijection on 64-bit states. */
  lemma StepIsBijective(h: U64, b: Byte)
    ensures StepBack(Step(h, b), b) == h && Step(StepBack(h, b), b) == h
  {
    hide WrappingMul, XorByte;
    PrimeHasInverse();
    XorByteUndone(h, b);
    XorByteUndone(WrappingMul(h, PRIME_INVERSE), b);
  }

  lemma PrimeHasInverse()
    ensures forall x: U64 :: WrappingMul(WrappingMul(x, PRIME), PRIME_INVERSE) == x
    ensures forall x: U64 :: WrappingMul(WrappingMul(x, PRIME_INVERSE), PRIME) == x
  {
    hide WrappingMul;
    assert PRIME * PRIME_INVERSE == 1 + 887285111055 * 0x1_0000_0000_0000_0000;
    forall x: U64
      ensures WrappingMul(WrappingMul(x, PRIME), PRIME_INVERSE) == x
      ensures WrappingMul(WrappingMul(x, PRIME_INVERSE), PRIME) == x
    {
      MulUndone(x, PRIME, PRIME_INVERSE, 887285111055);
      MulUndone(x, PRIME_INVERSE, PRIME, 887285111055);
    }
  }

  lemma {:induction false} HashFromConcat(h: U64, a: seq<Byte>, b: seq<Byte>)
    ensures HashFrom(h, a + b) == HashFrom(HashFrom(h, a), b)
    decreases |a|
  {
    hide Step;
    if a == [] {
      assert a + b == b;
    } else {
      assert (a + b)[1..] == a[1..] + b && (a + b)[0] == a[0];
      HashFromConcat(Step(h, a[0]), a[1..], b);
    }
  }

  lemma {:induction false} HashFromInjective(g: U64, h: U64, bytes: seq<Byte>)
    requires HashFrom(g, bytes) == HashFrom(h, bytes)
    ensures g == h
    decreases |bytes|
  {
    hide Step, StepBack;
    if bytes != [] {
      HashFromInjective(Step(g, bytes[0]), Step(h, bytes[0]), bytes[1..]);
      StepIsBijective(g, bytes[0]);
      StepIsBijective(h, bytes[0]);
    }
  }

  lemma StepSeparatesBytes(h: U64, x: Byte, y: Byte)
    requires x != y
    ensures Step(h, x) != Step(h, y)
  {
    hide WrappingMul, Xor, Power2;
    PrimeHasInverse();
    Power2Of64();
    if Step(h, x) == Step(h, y) {
      XorSeparates(h, x, y, 64);
    }
  }

  /** Texts of equal length that differ in exactly one byte never share a hash. */
  lemma {:induction false} OneByteApart(before: seq<Byte>, x: Byte, y: Byte, after: seq<Byte>)
    requires x != y
    ensures HashFrom(OFFSET_BASIS, before + [x] + after) != HashFrom(OFFSET_BASIS, before + [y] + after)
  {
    hide Step;
    var h := HashFrom(OFFSET_BASIS, before);
    HashFromConcat(OFFSET_BASIS, before + [x], after);
    HashFromConcat(OFFSET_BASIS, before + [y], after);
    HashFromConcat(OFFSET_BASIS, before, [x]);
    HashFromConcat(OFFSET_BASIS, before, [y]);
    assert HashFrom(h, [x]) == Step(h, x) && HashFrom(h, [y]) == Step(h, y);
    StepSeparatesBytes(h, x, y);
    if HashFrom(Step(h, x), after) == HashFrom(Step(h, y), after) {
      HashFromInjective(Step(h, x), Step(h, y), after);
    }
  }

  lemma BasisWithLetterA()
    ensures Xor(0xcbf2_9ce4_8422_2325, 97, 64) == 0xcbf2_9ce4_8422_2344
  {
    hide Xor, Power2;
    SmallPower();
    XorZero(0x197e539c9084446, 57);
    XorNext(0x32fca739210888c, 1, 58);
    XorNext(0x65f94e724211119, 3, 59);
    XorNext(0xcbf29ce48422232, 6, 60);
    XorNext(0x197e539c90844464, 12, 61);
    XorNext(0x32fca739210888c9, 24, 62);
    XorNext(0x65f94e7242111192, 48, 63);
    XorNext(0xcbf29ce484222325, 97, 64);
  }

  lemma SmallPower()
    ensures 0x197e539c9084446 < Power2(57)
  {
    assert Power2(4) == 16;
    hide Power2;
    Power2Doubled(4, 16);
    Power2Doubled(8, 0x100);
    Power2Doubled(16, 0x1_0000);
    Power2Sum(32, 25);
    Power2Sum(16, 9);
    Power2Sum(8, 1);
    assert Power2(1) == 2 by { PowerOne(); }
  }

  lemma PowerOne()
    ensures Power2(1) == 2
  {
  }

  /** Known answers of FNV-1a: the offset basis for no bytes, and the hash of the letter `a`. */
  lemma KnownHashes()
    ensures HashFrom(OFFSET_BASIS, []) == 0xcbf2_9ce4_8422_2325
    ensures HashFrom(OFFSET_BASIS, [97]) == 0xaf63_dc4c_8601_ec8c
  {
    BasisWithLetterA();
    hide Xor;
    assert XorByte(OFFSET_BASIS, 97) == 0xcbf2_9ce4_8422_2344;
    assert Step(OFFSET_BASIS, 97) == 0xaf63_dc4c_8601_ec8c;
    assert [97][1..] == [];
  }

  // ----- Pseudonyms ----------------------------------------------------------------------

  /** A number below 16^width as exactly `width` hexadecimal digits. */
  function FixedHex(n: nat, width: nat): (s: string)
    ensures |s| == width
  {
    if width == 0 then "" else FixedHex(n / 16, width - 1) + [HexDigit(n % 16)]
  }

  function Power16(n: nat): nat {
    if n == 0 then 1 else 16 * Power16(n - 1)
  }

  lemma {:induction false} FixedHexInjective(m: nat, n: nat, width: nat)
    requires m < Power16(width) && n < Power16(width) && FixedHex(m, width) == FixedHex(n, width)
    ensures m == n
  {
    if width > 0 {
      var a, b := FixedHex(m, width), FixedHex(n, width);
      assert a[..width - 1] == FixedHex(m / 16, width - 1) && b[..width - 1] == FixedHex(n / 16, width - 1);
      assert a[width - 1] == HexDigit(m % 16) && b[width - 1] == HexDigit(n % 16);
      HexDigitInjective(m % 16, n % 16);
      FixedHexInjective(m / 16, n / 16, width - 1);
    }
  }

  lemma HexDigitInjective(a: nat, b: nat)
    requires a < 16 && b < 16 && HexDigit(a) == HexDigit(b)
    ensures a == b
  {
    assert a < 10 ==> HexDigit(a) as int == 48 + a;
    assert b < 10 ==> HexDigit(b) as int == 48 + b;
    assert a >= 10 ==> HexDigit(a) as int == 87 + a;
    assert b >= 10 ==> HexDigit(b) as int == 87 + b;
  }

  lemma {:induction false} Power16IsPower2(n: nat)
    ensures Power16(n) == Power2(4 * n)
  {
    if n > 0 {
      Power16IsPower2(n - 1);
      Power2Sum(4, 4 * (n - 1));
      assert Power2(4) == 16;
    }
  }

  function Pseudonym(kind: string, bytes: seq<Byte>): string {
    kind + "-" + FixedHex(HashFrom(OFFSET_BASIS, bytes), 16)
  }

  lemma {:induction false} FixedHexReads(n: nat, width: nat)
    requires n < Power16(width)
    ensures HexValue(FixedHex(n, width)) == n
  {
    if width > 0 {
      FixedHexReads(n / 16, width - 1);
      assert FixedHex(n, width)[..width - 1] == FixedHex(n / 16, width - 1);
      HexDigitReads(n % 16);
    }
  }

  lemma HexDigitReads(d: nat)
    requires d < 16
    ensures HexDigitValue(HexDigit(d)) == d
  {
    assert d < 10 ==> HexDigit(d) as int == 48 + d;
    assert d >= 10 ==> HexDigit(d) as int == 87 + d;
  }

  /** A pseudonym is the kind, a hyphen and sixteen hexadecimal digits whose value is the hash. */
  lemma {:induction false} PseudonymReads(kind: string, bytes: seq<Byte>)
    ensures exists digits ::
              && Pseudonym(kind, bytes) == kind + "-" + digits && |digits| == 16
              && HexValue(digits) == HashFrom(OFFSET_BASIS, bytes)
  {
    hide FixedHex, HashFrom;
    var hash := HashFrom(OFFSET_BASIS, bytes);
    Power16IsPower2(16);
    Power2Of64();
    FixedHexReads(hash, 16);
    assert Pseudonym(kind, bytes) == kind + "-" + FixedHex(hash, 16);
  }

  lemma {:induction false} PseudonymsFollowHashes(kind: string, a: seq<Byte>, b: seq<Byte>)
    ensures Pseudonym(kind, a) == Pseudonym(kind, b) <==> HashFrom(OFFSET_BASIS, a) == HashFrom(OFFSET_BASIS, b)
  {
    hide FixedHex, HashFrom;
    var x, y := HashFrom(OFFSET_BASIS, a), HashFrom(OFFSET_BASIS, b);
    var n := |kind| + 1;
    assert Pseudonym(kind, a)[n..] == FixedHex(x, 16) && Pseudonym(kind, b)[n..] == FixedHex(y, 16);
    if Pseudonym(kind, a) == Pseudonym(kind, b) {
      Power16IsPower2(16);
      Power2Of64();
      FixedHexInjective(x, y, 16);
    }
  }

  /** Texts one byte apart keep distinct pseudonyms. */
  lemma PseudonymsOneByteApart(kind: string, before: seq<Byte>, x: Byte, y: Byte, after: seq<Byte>)
    requires x != y
    ensures Pseudonym(kind, before + [x] + after) != Pseudonym(kind, before + [y] + after)
  {
    hide Pseudonym, HashFrom;
    OneByteApart(before, x, y, after);
    PseudonymsFollowHashes(kind, before + [x] + after, before + [y] + after);
  }

  // ----- Addresses -----------------------------------------------------------------------

  /** `text` is the address as it is written. */
  function RedactIp(ip: Ip, text: seq<Byte>): Ip {
    var hash := HashFrom(OFFSET_BASIS, text);
    match ip
    case V4(_) => V4(0xC000_0200 + hash % 254 + 1)
    case V6(_) =>
      V6(0x2001_0db8 * 0x1_0000_0000_0000_0000_0000_0000 + (hash / 0x1_0000) % 0x1_0000 * 0x1_0000 + hash % 0x1_0000)
  }

  /** Replacements are documentation addresses of the same family: 192.0.2.1 to 192.0.2.254, or 2001:db8::/32. */
  lemma RedactedIntoDocumentationRanges(ip: Ip, text: seq<Byte>)
    ensures var r := RedactIp(ip, text);
            && r.V4? == ip.V4?
            && (r.V4? ==> r.bits / 256 == 0xC0_0002 && 1 <= r.bits % 256 <= 254)
            && (r.V6? ==> r.bits / 0x1_0000_0000_0000_0000_0000_0000 == 0x2001_0db8)
  {
    hide HashFrom;
    LowHalf(HashFrom(OFFSET_BASIS, text));
  }

  lemma LowHalf(hash: nat)
    ensures hash / 0x1_0000 % 0x1_0000 * 0x1_0000 + hash % 0x1_0000 == hash % 0x1_0000_0000
  {
  }

  /** The replacement is told by the hash of the text alone: its remainder by 254, or its low 32 bits. */
  lemma {:induction false} RedactedByHash(ip: Ip, text: seq<Byte>)
    ensures var r, hash := RedactIp(ip, text), HashFrom(OFFSET_BASIS, text);
            && (ip.V4? ==> r == V4(0xC000_0200 + 1 + hash % 254))
            && (ip.V6? ==> r == V6(0x2001_0db8_0000_0000_0000_0000_0000_0000 + hash % 0x1_0000_0000))
  {
    hide HashFrom;
    LowHalf(HashFrom(OFFSET_BASIS, text));
  }
}
