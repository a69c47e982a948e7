/**
  * The type bitmap of NSEC3 records (section 4.1.2 of RFC 4034, section 3.2.1 of
  * RFC 5155): windows of at most 32 octets, one bit for each record type.
  */
module TypeBitmap {
  import opened Octets

  // ----- Bits of an octet, counted from the lowest -----

  function Shr(b: nat, i: nat): nat {
    if i == 0 then b else Shr(b / 2, i - 1)
  }

  function Pow2(i: nat): (p: nat)
    ensures p >= 1
  {
    if i == 0 then 1 else 2 * Pow2(i - 1)
  }

  predicate Bit(b: nat, i: nat) {
    Shr(b, i) % 2 == 1
  }

  /** Bitwise or with the single bit `i`. */
  function WithBit(b: nat, i: nat): nat {
    if Bit(b, i) then b else b + Pow2(i)
  }

  /** Setting a bit with none set at or below it changes that bit and no other. */
  lemma {:induction false} WithBitBits(b: nat, i: nat, j: nat)
    requires forall m :: 0 <= m <= i ==> !Bit(b, m)
    ensures WithBit(b, i) == b + Pow2(i) && (Bit(b + Pow2(i), j) <==> j == i || Bit(b, j))
    decreases i
  {
    assert !Bit(b, i) && !Bit(b, 0);
    if i > 0 {
      forall m | 0 <= m <= i - 1
        ensures !Bit(b / 2, m)
      {
        assert !Bit(b, m + 1);
      }
      assert (b + Pow2(i)) / 2 == b / 2 + Pow2(i - 1);
      if j > 0 {
        WithBitBits(b / 2, i - 1, j - 1);
      }
    }
  }

  lemma ShrStep(b: nat, i: nat)
    requires i > 0
    ensures Shr(b, i) == Shr(b / 2, i - 1)
  {
  }

  lemma ShrZero(b: nat)
    ensures Shr(b, 0) == b
  {
  }

  /** A number of `n` bits stays one. */
  lemma {:induction false} WithBitFits(b: nat, i: nat, n: nat)
    requires i < n && b < Pow2(n)
    ensures WithBit(b, i) < Pow2(n)
    decreases i
  {
    hide Shr;
    var half, p := b / 2, Pow2(n - 1);
    assert b <= 2 * half + 1 && Pow2(n) == 2 * p;
    if i > 0 {
      WithBitFits(half, i - 1, n - 1);
      assert Bit(b, i) == Bit(half, i - 1) by { ShrStep(b, i); }
      assert Pow2(i) == 2 * Pow2(i - 1);
    } else {
      assert Bit(b, 0) == (b % 2 == 1) by { ShrZero(b); }
    }
  }

  // ----- The types named by a bitmap -----

  /** The types of the bits from number `k` on, counted from the highest, of one octet. */
  function OctetTypes(b: byte, base: nat, k: nat): seq<nat>
    requires k <= 8
    decreases 8 - k
  {
    if k == 8 then [] else (if Bit(b, 7 - k) then [base + k] else []) + OctetTypes(b, base, k + 1)
  }

  function BitmapTypes(bs: bytes, base: nat): seq<nat> {
    if bs == [] then [] else OctetTypes(bs[0], base, 0) + BitmapTypes(bs[1..], base + 8)
  }

  lemma ShrIs(b: nat, i: nat)
    requires i < 8
    ensures Shr(b, i) == b / [1, 2, 4, 8, 16, 32, 64, 128][i]
  {
    hide Shr;
    ShrFew(b, i % 4);
    if i >= 4 {
      ShrFour(b, i - 4);
      ShrFew(b / 2 / 2 / 2 / 2, i - 4);
    }
  }

  lemma ShrFew(b: nat, i: nat)
    requires i < 4
    ensures Shr(b, i) == b / [1, 2, 4, 8][i]
  {
    assert Shr(b, 1) == Shr(b / 2, 0) && Shr(b, 2) == Shr(b / 2, 1) && Shr(b, 3) == Shr(b / 2, 2);
  }

  lemma ShrFour(b: nat, i: nat)
    ensures Shr(b, i + 4) == Shr(b / 2 / 2 / 2 / 2, i)
  {
    assert Shr(b, i + 4) == Shr(b / 2, i + 3) == Shr(b / 2 / 2, i + 2) == Shr(b / 2 / 2 / 2, i + 1);
  }

  lemma {:induction false} OctetMember(b: byte, base: nat, k: nat, t: nat)
    requires k <= 8
    ensures t in OctetTypes(b, base, k) <==> base + k <= t < base + 8 && Bit(b, 7 - (t - base))
    decreases 8 - k
  {
    hide Bit;
    if k < 8 {
      OctetMember(b, base, k + 1, t);
    }
  }

  const BITS: seq<nat> := [0x80, 0x40, 0x20, 0x10, 8, 4, 2, 1]

  /** Bit number `i` of a bitmap, the highest bit of an octet being its first. */
  predicate IsSet(bs: bytes, i: nat) {
    i < 8 * |bs| && bs[i / 8] / BITS[i % 8] % 2 == 1
  }

  lemma SetNext(bs: bytes, i: nat)
    requires bs != []
    ensures IsSet(bs, i) <==> if i < 8 then Bit(bs[0], 7 - i) else IsSet(bs[1..], i - 8)
  {
    if i < 8 {
      BitTold(bs[0], 7 - i);
    } else {
      assert i / 8 == (i - 8) / 8 + 1 && i % 8 == (i - 8) % 8;
    }
  }

  /** A type is in a bitmap exactly when its bit is set. */
  lemma {:induction false} BitmapMember(bs: bytes, base: nat, t: nat)
    ensures t in BitmapTypes(bs, base) <==> base <= t && IsSet(bs, t - base)
    decreases |bs|
  {
    hide *;
    BitmapParts(bs, base, t);
    if bs == [] {
      NoneSet(t, base);
    } else {
      BitmapMember(bs[1..], base + 8, t);
      OctetMember(bs[0], base, 0, t);
      if t >= base {
        SetNext(bs, t - base);
      }
    }
  }

  lemma BitmapParts(bs: bytes, base: nat, t: nat)
    ensures t in BitmapTypes(bs, base) <==>
      bs != [] && (t in OctetTypes(bs[0], base, 0) || t in BitmapTypes(bs[1..], base + 8))
  {
    hide OctetTypes;
  }

  lemma NoneSet(t: nat, base: nat)
    ensures t >= base ==> !IsSet([], t - base)
  {
  }

  lemma BitTold(b: nat, i: nat)
    requires i < 8
    ensures Bit(b, i) <==> b / BITS[7 - i] % 2 == 1
  {
    hide Shr;
    ShrIs(b, i);
  }

  datatype Types = Types(ts: seq<nat>) | BadTypes

  /** Windows must be in order, not empty, of at most 32 octets and complete. */
  function Decode(msg: bytes, lastWindow: int): Types
    decreases |msg|
  {
    if msg == [] then Types([])
    else if |msg| < 2 then BadTypes
    else
      var window, length := msg[0], msg[1];
      if window <= lastWindow || length == 0 || length > 32 || 2 + length > |msg| then BadTypes
      else match Decode(msg[2 + length..], window)
        case BadTypes => BadTypes
        case Types(ts) => Types(BitmapTypes(msg[2..2 + length], window * 0x100) + ts)
  }

  /** The window of the last block, or what came before if there is none. */
  function LastWindow(msg: bytes, lastWindow: int): int
    decreases |msg|
  {
    if |msg| < 2 || 2 + msg[1] > |msg| then lastWindow else LastWindow(msg[2 + msg[1]..], msg[0])
  }

  function Block(window: byte, bitmap: bytes): bytes
    requires |bitmap| <= 32
  {
    [window, |bitmap| as byte] + bitmap
  }

  lemma DecodeBlock(window: byte, bitmap: bytes, rest: bytes, lastWindow: int)
    requires lastWindow < window && 1 <= |bitmap| <= 32
    ensures LastWindow(Block(window, bitmap) + rest, lastWindow) == LastWindow(rest, window)
    ensures Decode(Block(window, bitmap) + rest, lastWindow)
            == match Decode(rest, window)
               case BadTypes => BadTypes
               case Types(ts) => Types(BitmapTypes(bitmap, window * 0x100) + ts)
  {
    hide BitmapTypes;
    var msg, n := Block(window, bitmap) + rest, 2 + |bitmap|;
    assert msg[0] == window && msg[1] == |bitmap| && msg[2..n] == bitmap && msg[n..] == rest;
  }

  /** A decodable message that is not empty starts with a block. */
  lemma FirstBlock(msg: bytes, lastWindow: int) returns (bitmap: bytes, rest: bytes)
    requires msg != [] && Decode(msg, lastWindow).Types?
    ensures 1 <= |bitmap| <= 32 && lastWindow < msg[0] && msg == Block(msg[0], bitmap) + rest && |rest| < |msg|
  {
    hide BitmapTypes;
    var n := 2 + msg[1] as int;
    bitmap, rest := msg[2..n], msg[n..];
  }

  /** A block holds exactly the types of its window whose bits are set. */
  lemma BlockMember(window: byte, bitmap: bytes, t: nat)
    requires 1 <= |bitmap| <= 32
    ensures var r := Decode(Block(window, bitmap), -1);
      r.Types? && (t in r.ts <==> t / 0x100 == window && IsSet(bitmap, t % 0x100))
  {
    hide IsSet, BitmapTypes, Decode, Block;
    DecodeBlock(window, bitmap, [], -1);
    NoBlocks(window);
    assert Block(window, bitmap) + [] == Block(window, bitmap);
    var base := window * 0x100;
    assert BitmapTypes(bitmap, base) + [] == BitmapTypes(bitmap, base);
    BitmapMember(bitmap, base, t);
    if t >= base {
      SetBound(bitmap, t - base);
    }
    assert t / 0x100 == window <==> base <= t < base + 0x100;
  }

  lemma SetBound(bs: bytes, i: nat)
    ensures IsSet(bs, i) ==> i < 8 * |bs|
  {
  }

  /** A further block of a later window adds its types at the end. */
  lemma {:induction false} DecodeAppend(msg: bytes, lastWindow: int, window: byte, bitmap: bytes)
    requires Decode(msg, lastWindow).Types? && LastWindow(msg, lastWindow) < window && 1 <= |bitmap| <= 32
    ensures var m := msg + Block(window, bitmap);
            && Decode(m, lastWindow) == Types(Decode(msg, lastWindow).ts + BitmapTypes(bitmap, window * 0x100))
            && LastWindow(m, lastWindow) == window
    decreases |msg|
  {
    hide BitmapTypes, Decode, Block, LastWindow;
    var more := BitmapTypes(bitmap, window * 0x100);
    NoBlocks(lastWindow);
    NoBlocks(window);
    if msg == [] {
      DecodeBlock(window, bitmap, [], lastWindow);
      assert msg + Block(window, bitmap) == Block(window, bitmap) + [] && more + [] == [] + more;
    } else {
      var first, rest := FirstBlock(msg, lastWindow);
      DecodeBlock(msg[0], first, rest, lastWindow);
      DecodeBlock(msg[0], first, rest + Block(window, bitmap), lastWindow);
      DecodeAppend(rest, msg[0], window, bitmap);
      assert msg + Block(window, bitmap) == Block(msg[0], first) + (rest + Block(window, bitmap));
    }
  }

  /** Every block is of a later window and takes at most 34 octets. */
  lemma {:induction false} DecodeBound(msg: bytes, lastWindow: int)
    requires -1 <= lastWindow <= 255 && Decode(msg, lastWindow).Types?
    ensures |msg| <= 34 * (255 - lastWindow)
    decreases |msg|
  {
    hide BitmapTypes;
    if msg != [] {
      DecodeBound(msg[2 + msg[1]..], msg[0]);
    }
  }

  /** Numbers that rise strictly, from `lo` on and below `hi`. */
  ghost predicate Rising(ts: seq<nat>, lo: nat, hi: nat) {
    (forall i :: 0 <= i < |ts| ==> lo <= ts[i] < hi) && forall i, j :: 0 <= i < j < |ts| ==> ts[i] < ts[j]
  }

  lemma RisingConcat(x: seq<nat>, y: seq<nat>, lo: nat, mid: nat, hi: nat)
    requires Rising(x, lo, mid) && Rising(y, mid, hi) && lo <= mid <= hi
    ensures Rising(x + y, lo, hi)
  {
  }

  lemma {:induction false} OctetRising(b: byte, base: nat, k: nat)
    requires k <= 8
    ensures Rising(OctetTypes(b, base, k), base + k, base + 8)
    decreases 8 - k
  {
    hide Bit;
    if k < 8 {
      OctetRising(b, base, k + 1);
      var own := if Bit(b, 7 - k) then [base + k] else [];
      RisingConcat(own, OctetTypes(b, base, k + 1), base + k, base + k + 1, base + 8);
    }
  }

  lemma {:induction false} BitmapRising(bs: bytes, base: nat)
    ensures Rising(BitmapTypes(bs, base), base, base + 8 * |bs|)
    decreases |bs|
  {
    hide OctetTypes, Rising;
    if bs == [] {
      RisingNone(base, base);
    } else {
      OctetRising(bs[0], base, 0);
      BitmapRising(bs[1..], base + 8);
      RisingConcat(OctetTypes(bs[0], base, 0), BitmapTypes(bs[1..], base + 8), base, base + 8, base + 8 * |bs|);
    }
  }

  lemma RisingNone(lo: nat, hi: nat)
    ensures Rising([], lo, hi)
  {
  }

  lemma RisingWider(ts: seq<nat>, lo: nat, hi: nat, lo': nat, hi': nat)
    requires Rising(ts, lo, hi) && lo' <= lo && hi <= hi'
    ensures Rising(ts, lo', hi')
  {
  }

  /** What is decoded rises strictly and fits 16 bits. */
  lemma {:induction false} DecodeRising(msg: bytes, lastWindow: int)
    requires -1 <= lastWindow <= 255 && Decode(msg, lastWindow).Types?
    ensures Rising(Decode(msg, lastWindow).ts, (lastWindow + 1) * 0x100, 0x1_0000)
    decreases |msg|
  {
    hide BitmapTypes, Rising;
    if msg == [] {
      RisingNone((lastWindow + 1) * 0x100, 0x1_0000);
    } else {
      var window: int, bitmap, rest := msg[0], msg[2..2 + msg[1]], msg[2 + msg[1]..];
      var lo, mid := window * 0x100, (window + 1) * 0x100;
      BitmapRising(bitmap, lo);
      RisingWider(BitmapTypes(bitmap, lo), lo, lo + 8 * |bitmap|, (lastWindow + 1) * 0x100, mid);
      DecodeRising(rest, window);
      RisingConcat(BitmapTypes(bitmap, lo), Decode(rest, window).ts, (lastWindow + 1) * 0x100, mid, 0x1_0000);
    }
  }

  lemma NoBlocks(lastWindow: int)
    ensures Decode([], lastWindow) == Types([]) && LastWindow([], lastWindow) == lastWindow
  {
  }

  lemma {:induction false} BitmapAppend(bs: bytes, cs: bytes, base: nat)
    ensures BitmapTypes(bs + cs, base) == BitmapTypes(bs, base) + BitmapTypes(cs, base + 8 * |bs|)
    decreases |bs|
  {
    hide OctetTypes;
    if bs == [] {
      assert bs + cs == cs;
    } else {
      assert (bs + cs)[1..] == bs[1..] + cs;
      BitmapAppend(bs[1..], cs, base + 8);
    }
  }

  lemma {:induction false} NoBits(b: byte, base: nat, k: nat)
    requires k <= 8 && forall m :: 0 <= m < 8 - k ==> !Bit(b, m)
    ensures OctetTypes(b, base, k) == []
    decreases 8 - k
  {
    if k < 8 {
      assert !Bit(b, 7 - k);
      NoBits(b, base, k + 1);
    }
  }

  lemma {:induction false} ZeroBits(m: nat)
    ensures !Bit(0, m)
  {
    if m > 0 {
      ZeroBits(m - 1);
    }
  }

  lemma {:induction false} ZeroOctets(n: nat, bs: bytes, base: nat)
    requires |bs| == n && forall i :: 0 <= i < n ==> bs[i] == 0
    ensures BitmapTypes(bs, base) == []
  {
    if n > 0 {
      forall m | 0 <= m < 8
        ensures !Bit(0, m)
      {
        ZeroBits(m);
      }
      NoBits(bs[0], base, 0);
      ZeroOctets(n - 1, bs[1..], base + 8);
    }
  }

  lemma OctetSize()
    ensures Pow2(8) == 0x100
  {
    assert Pow2(4) == 16;
  }

  /** The bit just set is the last one: nothing follows it, and nothing was there. */
  lemma LastBit(b: byte, b': byte, base: nat, t: nat)
    requires t < 8 && (forall m :: 0 <= m <= 7 - t ==> !Bit(b, m)) && b' == b + Pow2(7 - t)
    ensures OctetTypes(b, base, t) == [] && OctetTypes(b', base, t) == [base + t]
  {
    hide Bit, Pow2;
    WithBitBits(b, 7 - t, 7 - t);
    forall m | 0 <= m < 8 - (t + 1)
      ensures !Bit(b', m)
    {
      WithBitBits(b, 7 - t, m);
    }
    NoBits(b, base, t);
    NoBits(b', base, t + 1);
  }

  lemma OctetTypesStep(b: byte, base: nat, k: nat)
    requires k < 8
    ensures OctetTypes(b, base, k) == (if Bit(b, 7 - k) then [base + k] else []) + OctetTypes(b, base, k + 1)
  {
  }

  /** Setting the next bit of an octet appends its type. */
  lemma {:induction false} OctetTypesGrow(b: byte, b': byte, base: nat, k: nat, t: nat)
    requires k <= t < 8 && (forall m :: 0 <= m <= 7 - t ==> !Bit(b, m)) && b' == b + Pow2(7 - t)
    ensures OctetTypes(b', base, k) == OctetTypes(b, base, k) + [base + t]
    decreases 8 - k
  {
    hide Bit, Pow2, OctetTypes;
    if k == t {
      LastBit(b, b', base, t);
      assert [] + [base + t] == [base + t];
    } else {
      WithBitBits(b, 7 - t, 7 - k);
      OctetTypesStep(b, base, k);
      OctetTypesStep(b', base, k);
      OctetTypesGrow(b, b', base, k + 1, t);
      var head := if Bit(b, 7 - k) then [base + k] else [];
      assert head + (OctetTypes(b, base, k + 1) + [base + t]) == head + OctetTypes(b, base, k + 1) + [base + t];
    }
  }

  // ----- Encoding -----

  function Zeros(n: nat): (z: bytes)
    ensures |z| == n && forall i :: 0 <= i < n ==> z[i] == 0
  {
    seq(n, i => 0)
  }

  ghost predicate LowClear(b: byte, k: nat)
    requires k < 8
  {
    forall m :: 0 <= m <= 7 - k ==> !Bit(b, m)
  }

  /** No bit at or below `7 - k` is set in the last octet, if the bitmap reaches `length`. */
  ghost predicate Room(bitmap: bytes, length: nat, k: nat)
    requires k < 8
  {
    |bitmap| <= length && (|bitmap| == length > 0 ==> LowClear(bitmap[length - 1], k))
  }

  /** What the octet of the next type was before, and the bitmap in front of it. */
  function LastOctet(bitmap: bytes, length: nat): byte {
    if |bitmap| == length > 0 then bitmap[length - 1] else 0
  }

  function Front(bitmap: bytes, length: nat): (f: bytes)
    requires |bitmap| <= length && length > 0
    ensures |f| == length - 1
  {
    if |bitmap| == length then bitmap[..length - 1] else bitmap + Zeros(length - 1 - |bitmap|)
  }

  lemma RoomBits(bitmap: bytes, length: nat, k: nat)
    requires k < 8 && length > 0 && Room(bitmap, length, k)
    ensures var b := LastOctet(bitmap, length);
            && (forall m :: 0 <= m <= 7 - k ==> !Bit(b, m))
            && WithBit(b, 7 - k) == b + Pow2(7 - k) < 0x100
  {
    hide Bit, Pow2;
    var b := LastOctet(bitmap, length);
    forall m | 0 <= m <= 7 - k
      ensures !Bit(b, m)
    {
      ZeroBits(m);
    }
    OctetSize();
    WithBitFits(b, 7 - k, 8);
    WithBitBits(b, 7 - k, 0);
  }

  /** Marking bit `k` of octet `length - 1` appends one type to those of the bitmap. */
  lemma MarkTypes(bitmap: bytes, length: nat, k: nat, base: nat, b': byte)
    requires k < 8 && length > 0 && Room(bitmap, length, k) && b' as int == WithBit(LastOctet(bitmap, length), 7 - k)
    ensures BitmapTypes(Front(bitmap, length) + [b'], base) == BitmapTypes(bitmap, base) + [base + 8 * (length - 1) + k]
  {
    hide Bit, Pow2, WithBit, OctetTypes;
    RoomBits(bitmap, length, k);
    var b, f, at := LastOctet(bitmap, length), Front(bitmap, length), base + 8 * (length - 1);
    OctetTypesGrow(b, b', at, 0, k);
    BitmapAppend(f, [b'], base);
    OneOctet(b', at);
    if |bitmap| == length {
      assert bitmap == f + [b];
      BitmapAppend(f, [b], base);
      OneOctet(b, at);
    } else {
      var z := Zeros(length - 1 - |bitmap|);
      BitmapAppend(bitmap, z, base);
      ZeroOctets(|z|, z, base + 8 * |bitmap|);
      ZeroOctets(1, [b], at);
      OneOctet(b, at);
      assert BitmapTypes(bitmap, base) + [] == BitmapTypes(bitmap, base);
    }
  }

  lemma OneOctet(b: byte, base: nat)
    ensures BitmapTypes([b], base) == OctetTypes(b, base, 0)
  {
    assert OctetTypes(b, base, 0) + [] == OctetTypes(b, base, 0);
  }

  /** After marking, there is room for any later bit of the same octet. */
  lemma RoomAfter(bitmap: bytes, length: nat, k: nat, b': byte, k': nat)
    requires k < k' < 8 && length > 0 && Room(bitmap, length, k)
    requires b' as int == WithBit(LastOctet(bitmap, length), 7 - k)
    ensures Room(Front(bitmap, length) + [b'], length, k')
  {
    hide Bit, Pow2, WithBit;
    RoomBits(bitmap, length, k);
    forall m | 0 <= m <= 7 - k'
      ensures !Bit(b', m)
    {
      WithBitBits(LastOctet(bitmap, length), 7 - k, m);
    }
  }

  ghost predicate Increasing(ts: seq<uint16>) {
    forall i, j :: 0 <= i < j < |ts| ==> ts[i] < ts[j]
  }

  /** The place of a type: its window, the octets its bitmap needs, and its bit from the top. */
  function WindowOf(t: uint16): byte {
    t / 0x100
  }

  function LengthOf(t: uint16): (n: nat)
    ensures 1 <= n <= 32
  {
    t % 0x100 / 8 + 1
  }

  function BitOf(t: uint16): (k: nat)
    ensures k < 8
  {
    t % 8
  }

  lemma Placed(t: uint16)
    ensures WindowOf(t) * 0x100 + 8 * (LengthOf(t) - 1) + BitOf(t) == t
  {
  }

  lemma Parts(t: uint16)
    ensures t / 0x100 == WindowOf(t) && (t - t / 0x100 * 0x100) / 8 + 1 == LengthOf(t) && t % 8 == BitOf(t)
  {
  }

  lemma Later(s: uint16, t: uint16)
    requires s < t
    ensures WindowOf(s) <= WindowOf(t)
    ensures WindowOf(s) == WindowOf(t) ==> LengthOf(s) <= LengthOf(t)
    ensures WindowOf(s) == WindowOf(t) && LengthOf(s) == LengthOf(t) ==> BitOf(s) < BitOf(t)
  {
    Placed(s);
    Placed(t);
  }

  /**
    * What has been written for the types so far: complete windows `done`, then the open
    * window with its bitmap.
    */
  ghost predicate Encoded(done: bytes, window: byte, bitmap: bytes, ts: seq<uint16>) {
    && ts != [] && 1 <= |bitmap| <= 32
    && var last := ts[|ts| - 1];
    && window == WindowOf(last) && |bitmap| == LengthOf(last)
    && (BitOf(last) < 7 ==> Room(bitmap, |bitmap|, BitOf(last) + 1))
    && Decode(done, -1).Types? && LastWindow(done, -1) < window
    && Decode(done, -1).ts + BitmapTypes(bitmap, window * 0x100) == ts
  }

  /** One more type in the open window. */
  lemma SameWindow(done: bytes, window: byte, bitmap: bytes, ts: seq<uint16>, t: uint16, b': byte)
    requires Encoded(done, window, bitmap, ts) && ts[|ts| - 1] < t && WindowOf(t) == window
    requires |bitmap| <= LengthOf(t) && b' as int == WithBit(LastOctet(bitmap, LengthOf(t)), 7 - BitOf(t))
    ensures Encoded(done, window, Front(bitmap, LengthOf(t)) + [b'], ts + [t])
  {
    hide Bit, WithBit, BitmapTypes, Decode, LastWindow, WindowOf, LengthOf, BitOf;
    var length, k, last := LengthOf(t), BitOf(t), ts[|ts| - 1];
    Later(last, t);
    if length == |bitmap| {
      RoomNarrows(bitmap, BitOf(last) + 1, k);
    }
    MarkTypes(bitmap, length, k, window * 0x100, b');
    Placed(t);
    if k < 7 {
      RoomAfter(bitmap, length, k, b', k + 1);
    }
    assert Decode(done, -1).ts + (BitmapTypes(bitmap, window * 0x100) + [t as nat]) == ts + [t];
  }

  lemma RoomNarrows(bitmap: bytes, j: nat, k: nat)
    requires j <= k < 8 && Room(bitmap, |bitmap|, j)
    ensures Room(bitmap, |bitmap|, k)
  {
  }

  /** The first type of a window, with `done` holding everything before it. */
  lemma NewWindow(done: bytes, ts: seq<uint16>, t: uint16, b': byte)
    requires Decode(done, -1) == Types(ts) && LastWindow(done, -1) < WindowOf(t)
    requires b' as int == WithBit(0, 7 - BitOf(t))
    ensures Encoded(done, WindowOf(t), Zeros(LengthOf(t) - 1) + [b'], ts + [t])
  {
    hide Bit, WithBit, BitmapTypes, Decode, LastWindow, WindowOf, LengthOf, BitOf;
    var length, k := LengthOf(t), BitOf(t);
    MarkTypes([], length, k, WindowOf(t) * 0x100, b');
    NoTypes(WindowOf(t) * 0x100);
    assert [] + Zeros(length - 1) == Zeros(length - 1);
    Placed(t);
    if k < 7 {
      RoomAfter([], length, k, b', k + 1);
    }
    assert ts + ([] + [t as nat]) == ts + [t];
  }

  lemma NoTypes(base: nat)
    ensures BitmapTypes([], base) == []
  {
  }

  function OrOctet(b: byte, k: nat): byte
    requires k < 8
  {
    OctetSize();
    WithBitFits(b, 7 - k, 8);
    WithBit(b, 7 - k)
  }

  /** What the buffer holds: the encoding so far, and zeros. */
  ghost predicate BufferIs(buf: bytes, out: bytes) {
    |out| <= |buf| && buf[..|out|] == out && forall j :: |out| <= j < |buf| ==> buf[j] == 0
  }

  /** The three writes for a type in the open window. */
  lemma WriteSame(buf: bytes, done: bytes, window: byte, bitmap: bytes, length: nat, b': byte)
    requires 1 <= |bitmap| <= length <= 32 && BufferIs(buf, done + Block(window, bitmap))
    requires |done| + 2 + length <= |buf|
    ensures buf[|done| + 1 + length] == LastOctet(bitmap, length)
    ensures BufferIs(buf[|done| := window][|done| + 1 := length][|done| + 1 + length := b'],
                     done + Block(window, Front(bitmap, length) + [b']))
  {
    var out, out' := done + Block(window, bitmap), done + Block(window, Front(bitmap, length) + [b']);
    var buf' := buf[|done| := window][|done| + 1 := length][|done| + 1 + length := b'];
    assert forall j :: 0 <= j < |out| ==> buf[j] == out[j];
    assert forall j :: 0 <= j < |out'| ==> buf'[j] == out'[j];
  }

  /** The three writes for a type in a new window. */
  lemma WriteNew(buf: bytes, done: bytes, window: byte, length: nat, b': byte)
    requires 1 <= length <= 32 && BufferIs(buf, done) && |done| + 2 + length <= |buf|
    ensures buf[|done| + 1 + length] == 0
    ensures BufferIs(buf[|done| := window][|done| + 1 := length][|done| + 1 + length := b'],
                     done + Block(window, Zeros(length - 1) + [b']))
  {
    var out' := done + Block(window, Zeros(length - 1) + [b']);
    var buf' := buf[|done| := window][|done| + 1 := length][|done| + 1 + length := b'];
    assert forall j :: 0 <= j < |done| ==> buf[j] == done[j];
    assert forall j :: 0 <= j < |out'| ==> buf'[j] == out'[j];
  }

  lemma BlockSize(window: byte, bitmap: bytes)
    requires |bitmap| <= 32
    ensures |Block(window, bitmap)| == 2 + |bitmap|
  {
  }

  lemma EncodedFacts(done: bytes, window: byte, bitmap: bytes, ts: seq<uint16>)
    requires Encoded(done, window, bitmap, ts)
    ensures 1 <= |bitmap| <= 32 && window == WindowOf(ts[|ts| - 1]) && |bitmap| == LengthOf(ts[|ts| - 1])
    ensures Decode(done + Block(window, bitmap), -1) == Types(ts)
    ensures LastWindow(done + Block(window, bitmap), -1) == window
  {
    DecodeAppend(done, -1, window, bitmap);
  }

  /** The state of the encoder: complete windows, and the open window with its bitmap. */
  datatype Coder = Coder(done: bytes, window: byte, bitmap: bytes)

  /** One more type, above all before it. */
  function CoderNext(c: Coder, t: uint16): Coder
    requires |c.bitmap| <= 32 && (WindowOf(t) == c.window ==> |c.bitmap| <= LengthOf(t))
  {
    if c.bitmap == [] then
      Coder(c.done, WindowOf(t), Zeros(LengthOf(t) - 1) + [OrOctet(0, BitOf(t))])
    else if WindowOf(t) != c.window then
      Coder(c.done + Block(c.window, c.bitmap), WindowOf(t), Zeros(LengthOf(t) - 1) + [OrOctet(0, BitOf(t))])
    else
      c.(bitmap := Front(c.bitmap, LengthOf(t)) + [OrOctet(LastOctet(c.bitmap, LengthOf(t)), BitOf(t))])
  }

  lemma CoderNextOk(c: Coder, ts: seq<uint16>, t: uint16)
    requires if ts == [] then c == Coder([], 0, []) else Encoded(c.done, c.window, c.bitmap, ts) && ts[|ts| - 1] < t
    ensures |c.bitmap| <= 32 && (WindowOf(t) == c.window ==> |c.bitmap| <= LengthOf(t))
    ensures var c' := CoderNext(c, t); Encoded(c'.done, c'.window, c'.bitmap, ts + [t])
  {
    hide Bit, WithBit, OrOctet, BitmapTypes, Decode, LastWindow, Encoded, Block, Room, Front, LastOctet, WindowOf,
      LengthOf, BitOf;
    NoBlocks(-1);
    FreshOctet(BitOf(t));
    if ts == [] {
      NewWindow([], [], t, OrOctet(0, BitOf(t)));
    } else {
      EncodedFacts(c.done, c.window, c.bitmap, ts);
      Later(ts[|ts| - 1], t);
      if WindowOf(t) != c.window {
        NewWindow(c.done + Block(c.window, c.bitmap), ts, t, OrOctet(0, BitOf(t)));
      } else {
        var b := LastOctet(c.bitmap, LengthOf(t));
        OldOctet(b, BitOf(t));
        SameWindow(c.done, c.window, c.bitmap, ts, t, OrOctet(b, BitOf(t)));
      }
    }
  }

  ghost function CoderOf(ts: seq<uint16>): (c: Coder)
    requires Increasing(ts)
    ensures if ts == [] then c == Coder([], 0, []) else Encoded(c.done, c.window, c.bitmap, ts)
  {
    if ts == [] then Coder([], 0, [])
    else
      var front, t := ts[..|ts| - 1], ts[|ts| - 1];
      assert front + [t] == ts;
      CoderNextOk(CoderOf(front), front, t);
      CoderNext(CoderOf(front), t)
  }

  /** The bitmap that a list of types is written as. */
  ghost function Encoding(ts: seq<uint16>): (r: bytes)
    requires ts != [] && Increasing(ts)
    ensures Decode(r, -1) == Types(ts) && r != []
  {
    var c := CoderOf(ts);
    EncodedFacts(c.done, c.window, c.bitmap, ts);
    c.done + Block(c.window, c.bitmap)
  }

  lemma CoderGrows(ts: seq<uint16>, i: nat)
    requires Increasing(ts) && i < |ts|
    ensures Increasing(ts[..i]) && Increasing(ts[..i + 1])
    ensures var c := CoderOf(ts[..i]);
      && |c.bitmap| <= 32 && (WindowOf(ts[i]) == c.window ==> |c.bitmap| <= LengthOf(ts[i]))
      && CoderOf(ts[..i + 1]) == CoderNext(c, ts[i])
  {
    hide Encoded, WindowOf, LengthOf, CoderNext;
    assert ts[..i + 1][..i] == ts[..i];
    CoderNextOk(CoderOf(ts[..i]), ts[..i], ts[i]);
  }

  ghost function Out(c: Coder): bytes
    requires |c.bitmap| <= 32
  {
    if c.bitmap == [] then c.done else c.done + Block(c.window, c.bitmap)
  }

  /** Where the window of the next type begins. */
  function Turn(c: Coder, t: uint16): nat {
    if c.bitmap != [] && WindowOf(t) != c.window then |c.done| + |c.bitmap| + 2 else |c.done|
  }

  /** The three writes for a type. */
  lemma WriteNext(buf: bytes, c: Coder, t: uint16)
    requires |c.bitmap| <= 32 && (WindowOf(t) == c.window ==> |c.bitmap| <= LengthOf(t))
    requires BufferIs(buf, Out(c)) && Turn(c, t) + 2 + LengthOf(t) <= |buf|
    ensures var c', at, n := CoderNext(c, t), Turn(c, t), LengthOf(t);
      && |c'.done| == at && |c'.bitmap| == n && c'.window == WindowOf(t)
      && BufferIs(buf[at := c'.window][at + 1 := n][at + 1 + n := OrOctet(buf[at + 1 + n], BitOf(t))], Out(c'))
  {
    hide OrOctet, BufferIs, Front, LastOctet, WindowOf, LengthOf, BitOf, Block, Zeros;
    var n, at := LengthOf(t), Turn(c, t);
    if c.bitmap == [] || WindowOf(t) != c.window {
      if c.bitmap != [] {
        BlockSize(c.window, c.bitmap);
      }
      WriteNew(buf, Out(c), WindowOf(t), n, OrOctet(0, BitOf(t)));
    } else {
      WriteSame(buf, c.done, c.window, c.bitmap, n, OrOctet(LastOctet(c.bitmap, n), BitOf(t)));
    }
  }

  lemma WindowsGrow(ts: seq<uint16>, i: nat)
    requires Increasing(ts) && i < |ts| && Increasing(ts[..i])
    ensures i > 0 ==> var c := CoderOf(ts[..i]); c.bitmap != [] && c.window <= WindowOf(ts[i])
    ensures i == 0 ==> CoderOf(ts[..i]).bitmap == []
  {
    hide WindowOf, LengthOf, BitOf, Encoded;
    if i > 0 {
      var c := CoderOf(ts[..i]);
      EncodedFacts(c.done, c.window, c.bitmap, ts[..i]);
      Later(ts[i - 1], ts[i]);
    }
  }

  /** What encoding a list comes to: octets, or slicing beyond the buffer. */
  datatype Bitmap = Bitmap(octets: bytes) | SlicePanic

  /** What the buffer holds for the first `i` types of an increasing list. */
  ghost predicate Holds(buf: bytes, ts: seq<uint16>, i: nat, offset: nat, lastLength: nat, lastWindow: byte)
    requires i <= |ts|
  {
    && Increasing(ts[..i])
    && var c := CoderOf(ts[..i]);
    && |c.bitmap| <= 32 && offset == |c.done| && lastLength == |c.bitmap| && lastWindow == c.window
    && BufferIs(buf, Out(c))
  }

  /** The buffer after the three writes for a type. */
  function Stamped(buf: bytes, at: nat, window: byte, n: nat, k: nat): bytes
    requires at + 1 + n < |buf| && 1 <= n <= 32 && k < 8
  {
    buf[at := window][at + 1 := n][at + 1 + n := OrOctet(buf[at + 1 + n], k)]
  }

  /** Type number `i` of an increasing list. */
  lemma HoldsNext(buf: bytes, ts: seq<uint16>, i: nat, offset: nat, lastLength: nat, lastWindow: byte, at: nat)
    requires Increasing(ts) && i < |ts| && Holds(buf, ts, i, offset, lastLength, lastWindow)
    requires at == if WindowOf(ts[i]) > lastWindow && lastLength != 0 then offset + lastLength + 2 else offset
    requires at + 2 + LengthOf(ts[i]) <= |buf|
    ensures Holds(Stamped(buf, at, WindowOf(ts[i]), LengthOf(ts[i]), BitOf(ts[i])), ts, i + 1, at, LengthOf(ts[i]),
                  WindowOf(ts[i]))
  {
    hide BufferIs, OrOctet, WindowOf, LengthOf, BitOf, CoderOf, CoderNext, Increasing, Encoded, Block;
    CoderGrows(ts, i);
    WindowsGrow(ts, i);
    WriteNext(buf, CoderOf(ts[..i]), ts[i]);
  }

  lemma HoldsNone(ts: seq<uint16>, buf: bytes)
    requires forall j :: 0 <= j < |buf| ==> buf[j] == 0
    ensures Holds(buf, ts, 0, 0, 0, 0)
  {
    CoderNone();
    NothingWritten(buf);
    assert ts[..0] == [];
  }

  lemma HoldsAll(buf: bytes, ts: seq<uint16>, offset: nat, lastLength: nat, lastWindow: byte)
    requires ts != [] && Increasing(ts) && Holds(buf, ts, |ts|, offset, lastLength, lastWindow)
    ensures offset + lastLength + 2 <= |buf| && buf[..offset + lastLength + 2] == Encoding(ts)
  {
    hide BufferIs, CoderOf, Encoded, Block, Increasing, Encoding;
    assert ts[..|ts|] == ts;
    CoderEnds(ts);
    var c := CoderOf(ts);
    BlockSize(c.window, c.bitmap);
    Written(buf, Out(c));
  }

  /**
    * Writes types into one buffer allocated up front. Every write is inside of it, for any
    * list, and for an increasing one the bitmap is the encoding of the list; without any type
    * the last slice is longer than the buffer.
    */
  method EncodeTypes(ts: seq<uint16>) returns (r: Bitmap)
    ensures r.SlicePanic? <==> ts == []
    ensures ts != [] && Increasing(ts) ==> r == Bitmap(Encoding(ts))
  {
    hide *;
    var types := new byte[34 * |ts|](i => 0);
    var lastWindow: byte, lastLength: nat, offset: nat := 0, 0, 0;
    HoldsNone(ts, types[..]);
    for i := 0 to |ts|
      invariant lastLength <= 32 && if i == 0 then offset == lastLength == 0 else offset + 34 <= 34 * i
      invariant Increasing(ts) ==> Holds(types[..], ts, i, offset, lastLength, lastWindow)
    {
      var t := ts[i];
      Parts(t);
      var window := t / 0x100;
      var length := (t - window * 0x100) / 8 + 1;
      ghost var before, offset0, lastLength0 := types[..], offset, lastLength;
      if window > lastWindow && lastLength != 0 {
        offset, lastLength := offset + lastLength + 2, 0;
      }
      if Increasing(ts) {
        HoldsNext(before, ts, i, offset0, lastLength0, lastWindow, offset);
      }
      types[offset] := window;
      types[offset + 1] := length;
      types[offset + 1 + length] := OrOctet(types[offset + 1 + length], t % 8);
      Overwritten(before, types[..], offset, window, length, BitOf(t));
      lastWindow, lastLength := window, length;
    }
    if offset + lastLength + 2 > types.Length {
      return SlicePanic;
    }
    if Increasing(ts) {
      HoldsAll(types[..], ts, offset, lastLength, lastWindow);
    }
    r := Bitmap(types[..offset + lastLength + 2]);
  }

  lemma Overwritten(before: bytes, after: bytes, at: nat, window: byte, n: nat, k: nat)
    requires k < 8 && 1 <= n <= 32 && at + 1 + n < |before| == |after|
    requires var b := before[at := window][at + 1 := n];
      after == b[at + 1 + n := OrOctet(b[at + 1 + n], k)]
    ensures after == Stamped(before, at, window, n, k)
  {
  }

  lemma CoderEnds(ts: seq<uint16>)
    requires ts != [] && Increasing(ts)
    ensures var c := CoderOf(ts); 1 <= |c.bitmap| <= 32 && Out(c) == c.done + Block(c.window, c.bitmap) == Encoding(ts)
    ensures Decode(Encoding(ts), -1) == Types(ts)
  {
    hide Encoded, CoderOf, Decode, Block;
    var c := CoderOf(ts);
    EncodedFacts(c.done, c.window, c.bitmap, ts);
  }

  lemma CoderNone()
    ensures Increasing([]) && CoderOf([]) == Coder([], 0, [])
  {
  }

  lemma NothingWritten(buf: bytes)
    requires forall j :: 0 <= j < |buf| ==> buf[j] == 0
    ensures BufferIs(buf, [])
  {
  }

  lemma Written(buf: bytes, out: bytes)
    requires BufferIs(buf, out)
    ensures |out| <= |buf| && buf[..|out|] == out
  {
  }

  lemma FreshOctet(k: nat)
    requires k < 8
    ensures OrOctet(0, k) as int == WithBit(0, 7 - k)
  {
  }

  lemma OldOctet(b: byte, k: nat)
    requires k < 8
    ensures OrOctet(b, k) as int == WithBit(b, 7 - k)
  {
  }

  // ----- Decoding -----

  /** The bits of one octet from the top, each looked at by shifting. */
  method OctetBits(b: byte, base: nat) returns (ts: seq<nat>)
    ensures ts == OctetTypes(b, base, 0)
  {
    hide Bit, OctetTypes;
    ts := [];
    var i := 7;
    assert [] + OctetTypes(b, base, 0) == OctetTypes(b, base, 0);
    while i >= 0
      invariant -1 <= i <= 7 && OctetTypes(b, base, 0) == ts + OctetTypes(b, base, 7 - i)
    {
      OctetTypesStep(b, base, 7 - i);
      ghost var here: seq<nat>, rest := if Bit(b, i) then [base + 7 - i] else [], OctetTypes(b, base, 8 - i);
      assert ts + (here + rest) == ts + here + rest;
      if Bit(b, i) {
        ts := ts + [base + 7 - i];
      } else {
        assert ts + here == ts;
      }
      i := i - 1;
    }
    assert OctetTypes(b, base, 8) == [] by { NoMoreBits(b, base); }
    assert ts + [] == ts;
  }

  lemma NoMoreBits(b: byte, base: nat)
    ensures OctetTypes(b, base, 8) == []
  {
  }

  lemma BlockParts(msg: bytes, at: nat, length: nat)
    requires at + 2 + length <= |msg|
    ensures msg[at..][2..2 + length] == msg[at + 2..at + 2 + length]
    ensures msg[at..][2 + length..] == msg[at + 2 + length..]
  {
  }

  lemma NoOctets(base: nat)
    ensures BitmapTypes([], base) == []
  {
  }

  method DecodeTypes(msg: bytes) returns (r: Types)
    ensures r == Decode(msg, -1)
  {
    hide OctetTypes, Decode, BitmapTypes;
    var ts: seq<nat>, lastWindow, offset := [], -1, 0;
    assert msg[0..] == msg;
    DecodeBehind(ts, Decode(msg, -1));
    while offset < |msg|
      invariant 0 <= offset <= |msg|
      invariant Decode(msg, -1) == Behind(ts, Decode(msg[offset..], lastWindow))
      decreases |msg| - offset
    {
      DecodeStep(msg[offset..], lastWindow);
      if offset + 2 > |msg| {
        return BadTypes;
      }
      var window, length: int := msg[offset], msg[offset + 1];
      offset := offset + 2;
      if window <= lastWindow || length == 0 || length > 32 || offset + length > |msg| {
        return BadTypes;
      }
      ghost var start, rest := ts, msg[offset - 2..];
      var bitmap := msg[offset..offset + length];
      BlockParts(msg, offset - 2, length);
      NoOctets(window * 0x100);
      assert bitmap[..0] == [];
      for j := 0 to length
        invariant ts == start + BitmapTypes(bitmap[..j], window * 0x100)
      {
        var more := OctetBits(msg[offset + j], window * 0x100 + j * 8);
        BitmapAppend(bitmap[..j], [bitmap[j]], window * 0x100);
        assert bitmap[..j] + [bitmap[j]] == bitmap[..j + 1];
        OneOctet(bitmap[j], window * 0x100 + 8 * j);
        ts := ts + more;
      }
      assert bitmap[..length] == bitmap;
      BehindTwice(start, BitmapTypes(bitmap, window * 0x100), Decode(msg[offset + length..], window));
      offset, lastWindow := offset + length, window;
    }
    assert msg[offset..] == [];
    NoBlocks(lastWindow);
    assert ts + [] == ts;
    r := Types(ts);
  }

  ghost function Behind(ts: seq<nat>, rest: Types): Types {
    if rest.Types? then Types(ts + rest.ts) else BadTypes
  }

  lemma DecodeBehind(ts: seq<nat>, rest: Types)
    ensures Behind([], rest) == rest
  {
    if rest.Types? {
      assert [] + rest.ts == rest.ts;
    }
  }

  lemma BehindTwice(x: seq<nat>, y: seq<nat>, rest: Types)
    ensures Behind(x, Behind(y, rest)) == Behind(x + y, rest)
  {
    if rest.Types? {
      assert x + (y + rest.ts) == x + y + rest.ts;
    }
  }

  lemma DecodeStep(msg: bytes, lastWindow: int)
    requires msg != []
    ensures |msg| < 2 ==> Decode(msg, lastWindow) == BadTypes
    ensures |msg| >= 2 && (msg[0] <= lastWindow || msg[1] == 0 || msg[1] > 32 || 2 + msg[1] > |msg|) ==>
              Decode(msg, lastWindow) == BadTypes
    ensures |msg| >= 2 && msg[0] > lastWindow && 1 <= msg[1] <= 32 && 2 + msg[1] <= |msg| ==>
              Decode(msg, lastWindow)
              == Behind(BitmapTypes(msg[2..2 + msg[1]], msg[0] as int * 0x100), Decode(msg[2 + msg[1]..], msg[0]))
  {
  }

  /** Decoding the encoding gives the list back exactly when the list is not empty and rises strictly. */
  method TypesRoundTrip(ts: seq<uint16>) returns (encoded: Bitmap, back: Types)
    ensures encoded.SlicePanic? <==> ts == []
    ensures encoded.Bitmap? && back == Types(ts) <==> ts != [] && Increasing(ts)
  {
    hide Decode, CoderOf, Encoding;
    encoded := EncodeTypes(ts);
    back := BadTypes;
    if encoded.Bitmap? {
      back := DecodeTypes(encoded.octets);
      if back.Types? {
        DecodeRising(encoded.octets, -1);
      }
      if Increasing(ts) {
        CoderEnds(ts);
      }
    }
  }
}
