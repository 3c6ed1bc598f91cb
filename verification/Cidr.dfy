/** Whether an address lies in a network, by masking both. */
module Cidr {
  import opened Bits
  import opened Evidence

  function Width(ip: Ip): nat {
    if ip.V4? then 32 else 128
  }

  predicate WellFormed(ip: Ip) {
    ip.bits < Power2(Width(ip))
  }

  /** `prefix` ones on the left; the shift never reaches the width. */
  function Mask(prefix: nat, width: nat): nat
    requires prefix <= width
  {
    if prefix == 0 then 0 else ShiftLeft(Power2(width) - 1, width - prefix, width)
  }

  predicate Contains(network: Ip, prefix: nat, address: Ip) {
    && network.V4? == address.V4?
    && prefix <= Width(network)
    && var mask := Mask(prefix, Width(network));
       And(network.bits, mask) == And(address.bits, mask)
  }

  lemma {:induction false} MaskedBits(bits: nat, prefix: nat, width: nat)
    requires prefix <= width && bits < Power2(width)
    ensures And(bits, Mask(prefix, width)) == bits - bits % Power2(width - prefix)
  {
    AndHighOnes(bits, width - prefix, width);
    if prefix == 0 {
      assert And(bits, 0) == 0;
    } else {
      ShiftedOnes(width - prefix, width);
    }
  }

  lemma SameQuotient(a: nat, b: nat, k: nat)
    requires k > 0
    ensures a - a % k == b - b % k <==> a / k == b / k
  {
    assert a == k * (a / k) + a % k && b == k * (b / k) + b % k;
    assert (a / k - b / k) * k == k * (a / k) - k * (b / k);
    NoSmallMultiple(a / k - b / k, k);
  }

  /** Same family, and the same quotient by two to the number of host bits. */
  predicate SamePrefix(network: Ip, prefix: nat, address: Ip) {
    && network.V4? == address.V4?
    && var width := if network.V4? then 32 else 128;
       prefix <= width && network.bits / Power2(width - prefix) == address.bits / Power2(width - prefix)
  }

  /**
    * RFC 4632 section 3.1: an address is in the network exactly when both agree above the lowest
    * `width - prefix` bits, that is, in their quotient by two to that power.
    */
  lemma ContainsIffSamePrefix(network: Ip, prefix: nat, address: Ip)
    requires WellFormed(network) && WellFormed(address)
    ensures Contains(network, prefix, address) <==> SamePrefix(network, prefix, address)
  {
    hide Power2, And, Mask;
    if network.V4? == address.V4? && prefix <= Width(network) {
      var width := Width(network);
      MaskedBits(network.bits, prefix, width);
      MaskedBits(address.bits, prefix, width);
      SameQuotient(network.bits, address.bits, Power2(width - prefix));
    }
  }

  /** For a fixed prefix, lying in each other's network is an equivalence on addresses of one family. */
  lemma ContainsIsEquivalence(a: Ip, b: Ip, c: Ip, prefix: nat)
    requires WellFormed(a) && WellFormed(b) && WellFormed(c) && prefix <= Width(a)
    ensures Contains(a, prefix, a)
    ensures Contains(a, prefix, b) ==> Contains(b, prefix, a)
    ensures Contains(a, prefix, b) && Contains(b, prefix, c) ==> Contains(a, prefix, c)
  {
    hide Contains, Power2;
    ContainsIffSamePrefix(a, prefix, a);
    ContainsIffSamePrefix(a, prefix, b);
    ContainsIffSamePrefix(b, prefix, a);
    ContainsIffSamePrefix(b, prefix, c);
    ContainsIffSamePrefix(a, prefix, c);
  }

  lemma DivMod(x: nat, k: nat)
    requires k > 0
    ensures x == k * (x / k) + x % k && x % k < k
  {
  }

  lemma QuotientOfQuotient(x: nat, k: nat, m: nat)
    requires k > 0 && m > 0
    ensures x / (k * m) == x / k / m
  {
    var y := x / k;
    DivMod(x, k);
    DivMod(y, m);
    NestedDivision(x, k, m, y / m, y % m, x % k);
  }

  lemma NestedDivision(x: nat, k: nat, m: nat, q: nat, r: nat, s: nat)
    requires x == k * (m * q + r) + s && r < m && s < k
    ensures k * m > 0 && x / (k * m) == q
  {
    BelowProduct(k, m, r, s);
    Regroup(k, m, q, r);
    ModUnique(x, k * m, q, k * r + s);
  }

  lemma BelowProduct(k: nat, m: nat, r: nat, s: nat)
    requires r < m && s < k
    ensures k * r + s < k * m
  {
    NoSmallMultiple(m - r, k);
    assert (m - r) * k == m * k - r * k;
  }

  lemma Regroup(k: nat, m: nat, q: nat, r: nat)
    ensures k * (m * q + r) == q * (k * m) + k * r
  {
    assert k * (m * q) == q * (k * m);
  }

  /** A longer prefix admits fewer addresses. */
  lemma LongerPrefixIsNarrower(network: Ip, short: nat, long: nat, address: Ip)
    requires WellFormed(network) && WellFormed(address) && short <= long
    requires Contains(network, long, address)
    ensures Contains(network, short, address)
  {
    hide Contains, Power2;
    ContainsIffSamePrefix(network, long, address);
    ContainsIffSamePrefix(network, short, address);
    var width := Width(network);
    var k, m := Power2(width - long), Power2(long - short);
    Power2Sum(width - long, long - short);
    QuotientOfQuotient(network.bits, k, m);
    QuotientOfQuotient(address.bits, k, m);
  }

  /** The full width admits the network address alone, and no prefix beyond it admits anything. */
  lemma FullWidthIsEquality(network: Ip, prefix: nat, address: Ip)
    requires WellFormed(network) && WellFormed(address) && prefix >= Width(network)
    ensures Contains(network, prefix, address) <==> prefix == Width(network) && address == network
  {
    hide Contains;
    ContainsIffSamePrefix(network, prefix, address);
    assert Power2(0) == 1;
  }
}
