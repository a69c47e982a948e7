/**
  * Octets, fixed-width integers, ASCII case folding and the name hash, as used
  * throughout the DNS library.
  */
module Octets {
  type byte = x: int | 0 <= x < 0x100
  type uint16 = x: int | 0 <= x < 0x1_0000
  type uint32 = x: int | 0 <= x < 0x1_0000_0000

  type bytes = seq<byte>

  /** The lower-case table: only the 26 ASCII capitals are moved. */
  function Lower(b: byte): byte {
    if 65 <= b <= 90 then b + 32 else b
  }

  /** Two octets are equal up to case if they are equal, or the capital and the small form of a letter. */
  lemma LowerTells(a: byte, b: byte)
    ensures Lower(a) == Lower(b) <==>
      a == b || (0x41 <= a <= 0x5a && b as int == a + 0x20) || (0x41 <= b <= 0x5a && a as int == b + 0x20)
  {
  }

  function LowerAll(s: bytes): (r: bytes)
    ensures |r| == |s|
    ensures forall i :: 0 <= i < |s| ==> r[i] == Lower(s[i])
  {
    seq(|s|, i requires 0 <= i < |s| => Lower(s[i]))
  }

  /** Equality of octet strings up to ASCII case. */
  ghost predicate SameFold(s: bytes, t: bytes) {
    |s| == |t| && forall i :: 0 <= i < |s| ==> Lower(s[i]) == Lower(t[i])
  }

  function U16(v: uint16): (r: bytes)
    ensures |r| == 2
  {
    [v / 0x100, v % 0x100]
  }

  function U32(v: uint32): (r: bytes)
    ensures |r| == 4
  {
    U16(v / 0x1_0000) + U16(v % 0x1_0000)
  }

  function Word16(hi: byte, lo: byte): uint16 {
    hi * 0x100 + lo
  }

  function Word32(a: byte, b: byte, c: byte, d: byte): uint32 {
    Word16(a, b) * 0x1_0000 + Word16(c, d)
  }

  lemma Uint16ReadsBack(v: uint16)
    ensures Word16(U16(v)[0], U16(v)[1]) == v
  {
  }

  lemma Uint32ReadsBack(v: uint32)
    ensures var s := U32(v); Word32(s[0], s[1], s[2], s[3]) == v
  {
    Uint16ReadsBack(v / 0x1_0000);
    Uint16ReadsBack(v % 0x1_0000);
  }
}
