/** Strings as sequences of Unicode scalar values: key order, searching, decimal numerals and untrusted text. */
module Text {
  import opened Wrappers

  // ----- Order of object keys ------------------------------------------------------------

  /** Lexicographic order, which is how the sorted keys of an object are compared. */
  predicate Less(a: string, b: string) {
    && b != []
    && (a == [] || a[0] < b[0] || (a[0] == b[0] && Less(a[1..], b[1..])))
  }

  lemma {:induction false} LessIrreflexive(a: string)
    ensures !Less(a, a)
  {
    if a != [] { LessIrreflexive(a[1..]); }
  }

  lemma {:induction false} LessTransitive(a: string, b: string, c: string)
    requires Less(a, b) && Less(b, c)
    ensures Less(a, c)
  {
    if a != [] && a[0] == b[0] && b[0] == c[0] {
      LessTransitive(a[1..], b[1..], c[1..]);
    }
  }

  lemma {:induction false} LessTotal(a: string, b: string)
    ensures a == b || Less(a, b) || Less(b, a)
  {
    if a != [] && b != [] && a[0] == b[0] {
      LessTotal(a[1..], b[1..]);
      assert a == [a[0]] + a[1..] && b == [b[0]] + b[1..];
    }
  }

  /** One text is less than another if it is a proper prefix, or has the lesser character where they first differ. */
  lemma {:induction false} LessMeans(a: string, b: string)
    ensures Less(a, b) <==>
            exists k :: 0 <= k <= |a| && k < |b| && a[..k] == b[..k] && (k < |a| ==> a[k] as int < b[k] as int)
  {
    if Less(a, b) {
      var k := FirstDifference(a, b);
    }
    forall k | 0 <= k <= |a| && k < |b| && a[..k] == b[..k] && (k < |a| ==> a[k] as int < b[k] as int)
      ensures Less(a, b)
    {
      DifferenceDecides(a, b, k);
    }
  }

  lemma {:induction false} FirstDifference(a: string, b: string) returns (k: nat)
    requires Less(a, b)
    ensures k <= |a| && k < |b| && a[..k] == b[..k] && (k < |a| ==> a[k] as int < b[k] as int)
  {
    if a != [] && a[0] == b[0] {
      var below := FirstDifference(a[1..], b[1..]);
      k := below + 1;
      assert a[..k] == [a[0]] + a[1..][..below] && b[..k] == [b[0]] + b[1..][..below];
    } else {
      k := 0;
    }
  }

  lemma {:induction false} DifferenceDecides(a: string, b: string, k: nat)
    requires k <= |a| && k < |b| && a[..k] == b[..k] && (k < |a| ==> a[k] as int < b[k] as int)
    ensures Less(a, b)
  {
    if k > 0 {
      assert a[0] == a[..k][0] == b[..k][0] == b[0];
      assert a[1..][..k - 1] == a[..k][1..] && b[1..][..k - 1] == b[..k][1..];
      DifferenceDecides(a[1..], b[1..], k - 1);
    }
  }

  predicate IsLeast(least: string, keys: set<string>) {
    least in keys && forall k :: k in keys && k != least ==> Less(least, k)
  }

  lemma LeastExists(keys: set<string>)
    requires keys != {}
    ensures exists k :: IsLeast(k, keys)
  {
    var k :| k in keys;
    if keys == {k} {
      assert IsLeast(k, keys);
    } else {
      LeastExists(keys - {k});
      var m :| IsLeast(m, keys - {k});
      LessTotal(k, m);
      if Less(k, m) {
        forall x | x in keys && x != k ensures Less(k, x) {
          if x != m { LessTransitive(k, m, x); }
        }
        assert IsLeast(k, keys);
      } else {
        assert IsLeast(m, keys);
      }
    }
  }

  lemma LeastUnique(a: string, b: string, keys: set<string>)
    requires IsLeast(a, keys) && IsLeast(b, keys)
    ensures a == b
  {
    if a != b {
      LessTransitive(a, b, a);
      LessIrreflexive(a);
    }
  }

  ghost predicate Ascending(keys: seq<string>) {
    forall i, j :: 0 <= i < j < |keys| ==> Less(keys[i], keys[j])
  }

  /** The keys of a set in ascending order: what collecting, sorting and deduplicating yields. */
  function SortedKeys(keys: set<string>): (sorted: seq<string>)
    ensures forall k :: k in sorted <==> k in keys
    ensures Ascending(sorted)
  {
    if keys == {} then []
    else
      LeastExists(keys);
      assert forall a, b :: IsLeast(a, keys) && IsLeast(b, keys) ==> a == b by {
        forall a, b | IsLeast(a, keys) && IsLeast(b, keys) ensures a == b {
          LeastUnique(a, b, keys);
        }
      }
      var least :| IsLeast(least, keys);
      [least] + SortedKeys(keys - {least})
  }

  // ----- Searching -----------------------------------------------------------------------

  /** The position of the first `c`, or the length. */
  function IndexOf(s: string, c: char): (n: nat)
    ensures n <= |s| && (n < |s| ==> s[n] == c) && c !in s[..n]
  {
    if s == [] || s[0] == c then 0 else 1 + IndexOf(s[1..], c)
  }

  lemma {:induction false} IndexOfSplit(before: string, c: char, after: string)
    requires c !in before
    ensures IndexOf(before + [c] + after, c) == |before|
  {
    if before != [] {
      IndexOfSplit(before[1..], c, after);
      assert (before + [c] + after)[1..] == before[1..] + [c] + after;
    }
  }

  // ----- Decimal numerals ----------------------------------------------------------------

  function Digit(d: nat): char
    requires d < 10
  {
    '0' + d as char
  }

  predicate IsDigit(c: char) {
    '0' <= c <= '9'
  }

  function DigitValue(c: char): nat
    requires IsDigit(c)
  {
    c as int - '0' as int
  }

  function Decimal(n: nat): string {
    if n < 10 then [Digit(n)] else Decimal(n / 10) + [Digit(n % 10)]
  }

  predicate AllDigits(s: string) {
    forall i :: 0 <= i < |s| ==> IsDigit(s[i])
  }

  function Value(s: string): nat
    requires AllDigits(s)
  {
    if s == [] then 0 else 10 * Value(s[..|s| - 1]) + DigitValue(s[|s| - 1])
  }

  /** An array index as RFC 6901 section 4 writes it: digits without a leading zero. */
  predicate IsIndex(s: string) {
    s != [] && AllDigits(s) && (|s| > 1 ==> s[0] != '0')
  }

  function ParseIndex(s: string): Option<nat> {
    if IsIndex(s) then Some(Value(s)) else None
  }

  /** An unsigned number below `limit`: digits, possibly after a plus sign. */
  function ParseNumber(s: string, limit: nat): Option<nat> {
    var digits := if s != [] && s[0] == '+' then s[1..] else s;
    if digits != [] && AllDigits(digits) && Value(digits) < limit then Some(Value(digits)) else None
  }

  lemma {:induction false} DecimalParses(n: nat)
    ensures ParseIndex(Decimal(n)) == Some(n)
    ensures n > 0 ==> Decimal(n)[0] != '0'
  {
    if n < 10 {
      var s := [Digit(n)];
      assert IsDigit(s[0]) && DigitValue(s[0]) == n;
      assert s[..0] == [] && |s| == 1;
      assert Value(s) == 10 * Value(s[..0]) + n;
      assert Decimal(n) == s && IsIndex(s);
    } else {
      DecimalParses(n / 10);
      var front, last := Decimal(n / 10), Digit(n % 10);
      var s := front + [last];
      assert s[..|s| - 1] == front;
      assert IsDigit(last) && DigitValue(last) == n % 10;
      assert s[0] == front[0];
      assert Value(s) == 10 * Value(front) + n % 10;
    }
  }

  lemma {:induction false} ParsedIsDecimal(s: string)
    requires IsIndex(s)
    ensures s == Decimal(Value(s))
    ensures s[0] != '0' ==> Value(s) > 0
  {
    var front := s[..|s| - 1];
    assert s == front + [s[|s| - 1]];
    if front != [] {
      ParsedIsDecimal(front);
    }
  }

  predicate Zeros(s: string) {
    forall c :: c in s ==> c == '0'
  }

  lemma {:induction false} ZerosInFront(zeros: string, s: string)
    requires Zeros(zeros) && AllDigits(s)
    ensures AllDigits(zeros + s) && Value(zeros + s) == Value(s)
    decreases |s|
  {
    if s != [] {
      var whole, front := zeros + s, s[..|s| - 1];
      assert whole[..|whole| - 1] == zeros + front;
      ZerosInFront(zeros, front);
      assert forall i :: 0 <= i < |whole| ==> IsDigit(whole[i]);
    } else {
      assert zeros + s == zeros;
      ZerosAreNothing(zeros);
    }
  }

  lemma {:induction false} ZerosAreNothing(zeros: string)
    requires Zeros(zeros)
    ensures AllDigits(zeros) && Value(zeros) == 0
  {
    assert forall i :: 0 <= i < |zeros| ==> zeros[i] in zeros;
    if zeros != [] {
      var front := zeros[..|zeros| - 1];
      assert forall c :: c in front ==> c in zeros;
      ZerosAreNothing(front);
    }
  }

  /** Digits are zeros in front of a numeral. */
  lemma {:induction false} DigitsSplit(s: string) returns (zeros: string)
    requires s != [] && AllDigits(s)
    ensures Zeros(zeros) && s == zeros + Decimal(Value(s))
    decreases |s|
  {
    hide Decimal, Value;
    if IsIndex(s) {
      zeros := "";
      ParsedIsDecimal(s);
    } else {
      var rest := s[1..];
      var fewer := DigitsSplit(rest);
      zeros := "0" + fewer;
      assert s == "0" + rest;
      ZerosInFront("0", rest);
      assert zeros + Decimal(Value(rest)) == "0" + (fewer + Decimal(Value(rest)));
    }
  }

  /** What is read as a number below the limit: a numeral, possibly after zeros and a plus sign. */
  lemma {:induction false} NumberIs(s: string, limit: nat, n: nat)
    ensures ParseNumber(s, limit) == Some(n) <==>
            && n < limit
            && exists zeros :: Zeros(zeros) && (s == zeros + Decimal(n) || s == "+" + (zeros + Decimal(n)))
  {
    hide Decimal, Value;
    if ParseNumber(s, limit) == Some(n) {
      var digits := if s[0] == '+' then s[1..] else s;
      var zeros := DigitsSplit(digits);
      assert s == digits || s == "+" + digits;
    }
    forall zeros | Zeros(zeros) && (s == zeros + Decimal(n) || s == "+" + (zeros + Decimal(n))) && n < limit
      ensures ParseNumber(s, limit) == Some(n)
    {
      NumeralParses(zeros, n);
      var digits := zeros + Decimal(n);
      assert s == digits || s[1..] == digits;
    }
  }

  lemma {:induction false} NumeralParses(zeros: string, n: nat)
    requires Zeros(zeros)
    ensures var digits := zeros + Decimal(n);
            digits != [] && AllDigits(digits) && Value(digits) == n && digits[0] != '+'
  {
    DecimalParses(n);
    ZerosInFront(zeros, Decimal(n));
    assert IsDigit((zeros + Decimal(n))[0]);
  }

  // ----- Untrusted text ------------------------------------------------------------------

  predicate IsControl(c: char) {
    c as int < 0x20 || 0x7F <= c as int <= 0x9F
  }

  function HexDigit(d: nat): char
    requires d < 16
  {
    if d < 10 then '0' + d as char else 'a' + (d - 10) as char
  }

  function Hex(n: nat): string {
    if n < 16 then [HexDigit(n)] else Hex(n / 16) + [HexDigit(n % 16)]
  }

  function EscapeControl(c: char): string {
    if c == '\t' then "\\t" else if c == '\r' then "\\r" else if c == '\n' then "\\n"
    else "\\u{" + Hex(c as int) + "}"
  }

  /** Control characters are replaced by their escapes before text enters a report. */
  function Sanitize(s: string): string {
    if s == [] then [] else (if IsControl(s[0]) then EscapeControl(s[0]) else [s[0]]) + Sanitize(s[1..])
  }

  lemma {:induction false} HexIsPlain(n: nat)
    ensures forall c :: c in Hex(n) ==> !IsControl(c)
  {
    if n >= 16 { HexIsPlain(n / 16); }
  }

  lemma {:induction false} SanitizedIsPlain(s: string)
    ensures forall c :: c in Sanitize(s) ==> !IsControl(c)
  {
    if s != [] {
      SanitizedIsPlain(s[1..]);
      HexIsPlain(s[0] as int);
    }
  }

  lemma {:induction false} PlainIsUnchanged(s: string)
    requires forall c :: c in s ==> !IsControl(c)
    ensures Sanitize(s) == s
  {
    if s != [] {
      PlainIsUnchanged(s[1..]);
      assert s == [s[0]] + s[1..];
    }
  }

  lemma {:induction false} SanitizeConcat(a: string, b: string)
    ensures Sanitize(a + b) == Sanitize(a) + Sanitize(b)
  {
    if a == [] {
      assert a + b == b;
    } else {
      assert (a + b)[1..] == a[1..] + b;
      SanitizeConcat(a[1..], b);
    }
  }

  function HexDigitValue(c: char): nat {
    if '0' <= c <= '9' then c as int - '0' as int else if 'a' <= c <= 'f' then c as int - 'a' as int + 10 else 0
  }

  function HexValue(s: string): nat {
    if s == [] then 0 else 16 * HexValue(s[..|s| - 1]) + HexDigitValue(s[|s| - 1])
  }

  lemma {:induction false} HexReads(n: nat)
    ensures HexValue(Hex(n)) == n && (n > 0 ==> Hex(n)[0] != '0')
    ensures forall c :: c in Hex(n) ==> '0' <= c <= '9' || 'a' <= c <= 'f'
  {
    if n < 16 {
      assert HexValue([]) == 0 && Hex(n)[..0] == [];
    } else {
      HexReads(n / 16);
      assert Hex(n)[..|Hex(n)| - 1] == Hex(n / 16);
    }
  }

  /** Exactly the control characters are replaced: tab, return and newline by name, any other by its number. */
  lemma ReplacedIffControl(c: char)
    ensures Sanitize([c]) == [c] <==> !(c as int < 32 || 127 <= c as int < 160)
    ensures c as int < 32 || 127 <= c as int < 160 ==>
              match c as int
              case 9 => Sanitize([c]) == "\\t"
              case 13 => Sanitize([c]) == "\\r"
              case 10 => Sanitize([c]) == "\\n"
              case n => exists digits :: Sanitize([c]) == "\\u{" + digits + "}" && HexValue(digits) == n
  {
    assert [c][1..] == [];
    HexReads(c as int);
    if IsControl(c) {
      assert Sanitize([c])[0] == '\\';
      assert EscapeControl(c) + [] == EscapeControl(c);
    }
  }
}
