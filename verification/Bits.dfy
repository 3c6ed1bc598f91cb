/** Powers of two and bitwise operations on natural numbers. */
module Bits {

  function Power2(n: nat): (p: nat)
    ensures p > 0
  {
    if n == 0 then 1 else 2 * Power2(n - 1)
  }

  lemma {:induction false} Power2Sum(a: nat, b: nat)
    ensures Power2(a + b) == Power2(a) * Power2(b)
  {
    if a > 0 {
      Power2Sum(a - 1, b);
      assert Power2(a + b) == 2 * Power2(a - 1 + b);
      assert 2 * (Power2(a - 1) * Power2(b)) == (2 * Power2(a - 1)) * Power2(b);
    }
  }

  lemma {:induction false} Power2Doubled(n: nat, v: nat)
    requires Power2(n) == v
    ensures Power2(2 * n) == v * v
  {
    Power2Sum(n, n);
  }

  lemma Power2Of64()
    ensures Power2(64) == 0x1_0000_0000_0000_0000
  {
    assert Power2(4) == 16;
    hide Power2;
    Power2Doubled(4, 16);
    Power2Doubled(8, 0x100);
    Power2Doubled(16, 0x1_0000);
    Power2Doubled(32, 0x1_0000_0000);
  }

  lemma {:induction false} Power2Monotone(m: nat, n: nat)
    requires m <= n
    ensures Power2(m) <= Power2(n)
  {
    if m < n { Power2Monotone(m, n - 1); }
  }

  // ----- Exclusive or --------------------------------------------------------------------

  /** Exclusive or of the lowest `bits` bits. */
  function Xor(a: nat, b: nat, bits: nat): nat {
    if bits == 0 then 0
    else 2 * Xor(a / 2, b / 2, bits - 1) + if a % 2 == b % 2 then 0 else 1
  }

  lemma {:induction false} XorBounded(a: nat, b: nat, bits: nat)
    ensures Xor(a, b, bits) < Power2(bits)
  {
    if bits > 0 { XorBounded(a / 2, b / 2, bits - 1); }
  }

  lemma {:induction false} XorTwice(a: nat, b: nat, bits: nat)
    requires a < Power2(bits)
    ensures Xor(Xor(a, b, bits), b, bits) == a
  {
    if bits > 0 {
      var x := Xor(a, b, bits);
      assert x / 2 == Xor(a / 2, b / 2, bits - 1);
      XorTwice(a / 2, b / 2, bits - 1);
    }
  }

  lemma {:induction false} XorSeparates(a: nat, x: nat, y: nat, bits: nat)
    requires x < Power2(bits) && y < Power2(bits) && Xor(a, x, bits) == Xor(a, y, bits)
    ensures x == y
  {
    if bits > 0 {
      assert Xor(a, x, bits) / 2 == Xor(a / 2, x / 2, bits - 1);
      assert Xor(a, y, bits) / 2 == Xor(a / 2, y / 2, bits - 1);
      assert Xor(a, x, bits) % 2 == Xor(a, y, bits) % 2;
      XorSeparates(a / 2, x / 2, y / 2, bits - 1);
    }
  }

  predicate Bit(n: nat, k: nat) {
    if k == 0 then n % 2 == 1 else Bit(n / 2, k - 1)
  }

  /** A bit of the exclusive or is set exactly when the two bits differ. */
  lemma {:induction false} XorBit(a: nat, b: nat, bits: nat, k: nat)
    requires k < bits
    ensures Bit(Xor(a, b, bits), k) <==> Bit(a, k) != Bit(b, k)
  {
    var x := Xor(a, b, bits);
    assert x / 2 == Xor(a / 2, b / 2, bits - 1);
    if k > 0 { XorBit(a / 2, b / 2, bits - 1, k - 1); }
  }

  lemma XorNext(a: nat, b: nat, bits: nat)
    requires bits > 0
    ensures Xor(a, b, bits) == 2 * Xor(a / 2, b / 2, bits - 1) + if a % 2 == b % 2 then 0 else 1
  {
  }

  lemma {:induction false} XorZero(a: nat, bits: nat)
    requires a < Power2(bits)
    ensures Xor(a, 0, bits) == a
  {
    if bits > 0 { XorZero(a / 2, bits - 1); }
  }

  // ----- And, and masks ------------------------------------------------------------------

  function And(a: nat, b: nat): nat {
    if a == 0 || b == 0 then 0 else 2 * And(a / 2, b / 2) + (if a % 2 == 1 && b % 2 == 1 then 1 else 0)
  }

  /** Shift left in a word of `width` bits; shifting by the whole width is an overflow. */
  function ShiftLeft(v: nat, count: nat, width: nat): nat
    requires count < width
  {
    (v * Power2(count)) % Power2(width)
  }

  lemma {:induction false} AndOnes(x: nat, width: nat)
    requires x < Power2(width)
    ensures And(x, Power2(width) - 1) == x
  {
    if width > 0 && x > 0 {
      var ones := Power2(width) - 1;
      assert ones / 2 == Power2(width - 1) - 1 && ones % 2 == 1;
      AndOnes(x / 2, width - 1);
      assert ones > 0;
    }
  }

  lemma ModDoubled(x: nat, m: nat)
    requires m > 0
    ensures x % (2 * m) == 2 * (x / 2 % m) + x % 2
  {
    var h := x / 2;
    var q, r := h / m, h % m;
    assert h == q * m + r;
    assert x == q * (2 * m) + (2 * r + x % 2) by {
      assert q * (2 * m) == 2 * (q * m);
    }
    ModUnique(x, 2 * m, q, 2 * r + x % 2);
  }

  lemma NoSmallMultiple(d: int, m: nat)
    requires m > 0
    ensures d == 0 || d * m >= m || d * m + m <= 0
  {
    if d >= 1 {
      assert (d - 1) * m >= 0;
    } else if d <= -1 {
      assert (-1 - d) * m >= 0;
    }
  }

  lemma ModUnique(x: nat, m: nat, q: nat, r: nat)
    requires m > 0 && r < m && x == q * m + r
    ensures x % m == r && x / m == q
  {
    assert x == m * (x / m) + x % m;
    assert (q - x / m) * m == x % m - r;
    NoSmallMultiple(q - x / m, m);
  }

  lemma {:induction false} AndEven(x: nat, half: nat)
    ensures And(x, 2 * half) == 2 * And(x / 2, half)
  {
    assert 2 * half / 2 == half && 2 * half % 2 == 0;
  }

  lemma {:induction false} MaskDoubled(x: nat, mask: nat, half: nat, m: nat, p: nat)
    requires p > 0 && mask == 2 * half && m == 2 * p && And(x / 2, half) == x / 2 - x / 2 % p
    ensures And(x, mask) == x - x % m
  {
    hide And;
    AndEven(x, half);
    ModDoubled(x, p);
  }

  lemma Power2Step(n: nat)
    requires n > 0
    ensures Power2(n) == 2 * Power2(n - 1)
  {
  }

  /** Masking with the high ones of a word clears the low bits. */
  lemma {:induction false} AndHighOnes(x: nat, low: nat, width: nat)
    requires x < Power2(width) && low <= width
    ensures Power2(low) <= Power2(width)
    ensures And(x, Power2(width) - Power2(low)) == x - x % Power2(low)
  {
    hide And, Power2;
    Power2Monotone(low, width);
    if low == 0 {
      AndOnes(x, width);
      assert Power2(0) == 1 by { NoBits(); }
    } else {
      Power2Step(low);
      Power2Step(width);
      AndHighOnes(x / 2, low - 1, width - 1);
      MaskDoubled(x, Power2(width) - Power2(low), Power2(width - 1) - Power2(low - 1), Power2(low), Power2(low - 1));
    }
  }

  lemma NoBits()
    ensures Power2(0) == 1
  {
  }

  lemma OnesShifted(p: nat, k: nat)
    requires 0 < k <= p
    ensures (p - 1) * k % p == p - k
  {
    assert (p - 1) * k == p * k - k && (k - 1) * p == k * p - p;
    ModUnique((p - 1) * k, p, k - 1, p - k);
  }

  /** All ones shifted left are the high ones. */
  lemma {:induction false} ShiftedOnes(count: nat, width: nat)
    requires count < width
    ensures ShiftLeft(Power2(width) - 1, count, width) == Power2(width) - Power2(count)
  {
    Power2Monotone(count, width);
    OnesShifted(Power2(width), Power2(count));
  }
}
