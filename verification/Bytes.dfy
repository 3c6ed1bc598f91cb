/** Octets, and the UTF-8 text they may spell. */
module Bytes {
  type Byte = b: int | 0 <= b < 256

  const CR: Byte := 13
  const LF: Byte := 10
  const SP: Byte := 32
  const CRLF: seq<Byte> := [CR, LF]

  predicate Continuation(b: Byte) {
    0x80 <= b < 0xC0
  }

  /** The length of the well-formed UTF-8 sequence that starts here, 0 when there is none. */
  function Utf8Length(s: seq<Byte>): (n: nat)
    requires s != []
    ensures n <= |s| && n <= 4
  {
    var b := s[0];
    if b < 0x80 then 1
    else if |s| >= 2 && 0xC2 <= b < 0xE0 && Continuation(s[1]) then 2
    else if |s| >= 3 && 0xE0 <= b < 0xF0 && Continuation(s[1]) && Continuation(s[2])
            && (b == 0xE0 ==> s[1] >= 0xA0) && (b == 0xED ==> s[1] < 0xA0) then 3
    else if |s| >= 4 && 0xF0 <= b < 0xF5 && Continuation(s[1]) && Continuation(s[2]) && Continuation(s[3])
            && (b == 0xF0 ==> s[1] >= 0x90) && (b == 0xF4 ==> s[1] < 0x90) then 4
    else 0
  }

  predicate IsUtf8(s: seq<Byte>) {
    s == [] || (Utf8Length(s) > 0 && IsUtf8(s[Utf8Length(s)..]))
  }

  /** A control character starts here: U+0000 to U+001F, U+007F, or U+0080 to U+009F. */
  predicate StartsControl(s: seq<Byte>)
    requires s != []
  {
    s[0] < 0x20 || s[0] == 0x7F || (s[0] == 0xC2 && |s| >= 2 && s[1] < 0xA0)
  }

  predicate NoControls(s: seq<Byte>)
    requires IsUtf8(s)
  {
    s == [] || (!StartsControl(s) && NoControls(s[Utf8Length(s)..]))
  }
}
