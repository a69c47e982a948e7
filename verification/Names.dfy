/**
  * A domain name as the library stores it: the uncompressed wire octets and a
  * table holding the position of every label length octet, the root's included.
  */
module Names {
  import opened Octets

  const MAX_WIRE := 255
  const MAX_LABELS := 128
  const MAX_LABEL_LEN := 63

  type Label = l: bytes | 1 <= |l| <= 63 witness [0]

  datatype Name = Name(raw: bytes, offsets: bytes)

  // ----- Label lists and their encoding -----

  /** The encoding of a label list without the final zero octet. */
  function Body(ls: seq<Label>): bytes {
    if ls == [] then [] else [|ls[0]| as byte] + ls[0] + Body(ls[1..])
  }

  function Wire(ls: seq<Label>): (w: bytes)
    ensures |w| == |Body(ls)| + 1 && w[|w| - 1] == 0
  {
    Body(ls) + [0]
  }

  lemma {:induction false} BodyConcat(x: seq<Label>, y: seq<Label>)
    ensures Body(x + y) == Body(x) + Body(y)
  {
    if x == [] {
      assert x + y == y;
    } else {
      assert (x + y)[1..] == x[1..] + y;
      BodyConcat(x[1..], y);
    }
  }

  lemma BodySplit(ls: seq<Label>, k: nat)
    requires k <= |ls|
    ensures Body(ls) == Body(ls[..k]) + Body(ls[k..])
  {
    hide Body;
    BodyConcat(ls[..k], ls[k..]);
    assert ls[..k] + ls[k..] == ls;
  }

  lemma WireSplit(ls: seq<Label>, k: nat)
    requires k <= |ls|
    ensures Wire(ls) == Body(ls[..k]) + Wire(ls[k..])
  {
    BodySplit(ls, k);
  }

  lemma WireHead(ls: seq<Label>)
    requires ls != []
    ensures Wire(ls) == [|ls[0]| as byte] + ls[0] + Wire(ls[1..])
  {
  }

  /** Every label takes at least two octets, so 255 octets hold at most 127 labels. */
  lemma {:induction false} BodyLength(ls: seq<Label>)
    ensures |Body(ls)| >= 2 * |ls|
  {
    if ls != [] {
      BodyLength(ls[1..]);
    }
  }

  ghost predicate FitsName(ls: seq<Label>) {
    |Body(ls)| < MAX_WIRE
  }

  function Offset(ls: seq<Label>, k: nat): nat
    requires k <= |ls|
  {
    |Body(ls[..k])|
  }

  lemma OffsetStep(ls: seq<Label>, k: nat)
    requires k < |ls|
    ensures Offset(ls, k + 1) == Offset(ls, k) + |ls[k]| + 1
  {
    assert ls[..k + 1] == ls[..k] + [ls[k]];
    BodyConcat(ls[..k], [ls[k]]);
    assert Body([ls[k]]) == [|ls[k]| as byte] + ls[k] + [];
  }

  lemma OffsetBound(ls: seq<Label>, k: nat)
    requires k <= |ls|
    ensures Offset(ls, k) <= |Body(ls)|
    ensures Wire(ls)[Offset(ls, k)..] == Wire(ls[k..])
  {
    WireSplit(ls, k);
  }

  /** What the octets around label `k` look like. */
  lemma LabelAt(ls: seq<Label>, k: nat)
    requires k < |ls|
    ensures Offset(ls, k + 1) == Offset(ls, k) + |ls[k]| + 1 < |Wire(ls)|
    ensures Wire(ls)[Offset(ls, k)] == |ls[k]|
    ensures Wire(ls)[Offset(ls, k) + 1..Offset(ls, k + 1)] == ls[k]
  {
    OffsetStep(ls, k);
    OffsetBound(ls, k + 1);
    WireSplit(ls, k);
    assert ls[k..][0] == ls[k];
    assert Wire(ls[k..]) == [|ls[k]| as byte] + ls[k] + Body(ls[k..][1..]) + [0];
  }

  function OffsetByte(ls: seq<Label>, k: nat): byte
    requires FitsName(ls) && k <= |ls|
  {
    OffsetBound(ls, k);
    Offset(ls, k)
  }

  function Offsets(ls: seq<Label>): (os: bytes)
    requires FitsName(ls)
    ensures |os| == |ls| + 1
    ensures forall k :: 0 <= k <= |ls| ==> os[k] == Offset(ls, k)
  {
    seq<byte>(|ls| + 1, k requires 0 <= k <= |ls| => OffsetByte(ls, k))
  }

  function FromLabels(ls: seq<Label>): (n: Name)
    requires FitsName(ls)
  {
    Name(Wire(ls), Offsets(ls))
  }

  // ----- Well-formed names -----

  ghost predicate Encodes(n: Name, ls: seq<Label>) {
    FitsName(ls) && n == FromLabels(ls)
  }

  ghost predicate Valid(n: Name) {
    exists ls :: Encodes(n, ls)
  }

  /** The labels of a name, leftmost first, without the root label. */
  ghost function Labels(n: Name): (ls: seq<Label>)
    requires Valid(n)
    ensures FitsName(ls) && n == FromLabels(ls)
    ensures |n.offsets| == |ls| + 1 && |n.raw| == |Body(ls)| + 1
  {
    var ls :| Encodes(n, ls);
    ls
  }

  /** A label list can be recovered from its encoding. */
  lemma {:induction false} WireInjective(x: seq<Label>, y: seq<Label>)
    requires Wire(x) == Wire(y)
    ensures x == y
  {
    assert Wire(x)[0] == Wire(y)[0];
    if x != [] {
      assert y != [];
      assert Wire(x) == [|x[0]| as byte] + x[0] + Wire(x[1..]);
      assert Wire(y) == [|y[0]| as byte] + y[0] + Wire(y[1..]);
      var m := |x[0]| + 1;
      assert x[0] == Wire(x)[1..m] && y[0] == Wire(y)[1..m];
      assert Wire(x)[m..] == Wire(x[1..]) && Wire(y)[m..] == Wire(y[1..]);
      WireInjective(x[1..], y[1..]);
      assert x == [x[0]] + x[1..] && y == [y[0]] + y[1..];
    }
  }

  lemma LabelsOfEncoding(ls: seq<Label>)
    requires FitsName(ls)
    ensures Valid(FromLabels(ls)) && Labels(FromLabels(ls)) == ls
  {
    assert Encodes(FromLabels(ls), ls);
    WireInjective(ls, Labels(FromLabels(ls)));
  }

  /**
    * In a well-formed name the table visits exactly the length octets: it starts at
    * 0, each entry leads over its label to the next, and the last is the final zero.
    */
  lemma ExactTable(n: Name)
    requires Valid(n)
    ensures 1 <= |n.offsets| <= MAX_LABELS && 1 <= |n.raw| <= MAX_WIRE
    ensures n.offsets[0] == 0
    ensures n.offsets[|n.offsets| - 1] == |n.raw| - 1 && n.raw[|n.raw| - 1] == 0
    ensures forall i :: 0 <= i < |n.offsets| - 1 ==> 0 <= Next(n, i) < |n.raw| && n.offsets[i + 1] == Next(n, i)
  {
    var ls := Labels(n);
    BodyLength(ls);
    assert ls[..|ls|] == ls;
    forall i | 0 <= i < |ls|
      ensures 0 <= Next(n, i) < |n.raw| && n.offsets[i + 1] == Next(n, i)
    {
      LabelAt(ls, i);
    }
  }

  /** Where the label at table entry `i` ends, or -1 when its length octet is not one. */
  ghost function Next(n: Name, i: nat): int
    requires i < |n.offsets|
  {
    if n.offsets[i] < |n.raw| && 1 <= n.raw[n.offsets[i]] <= MAX_LABEL_LEN
    then n.offsets[i] as int + n.raw[n.offsets[i]] as int + 1 else -1
  }

  // ----- Equality up to case -----

  ghost predicate SameLabels(x: seq<Label>, y: seq<Label>) {
    |x| == |y| && forall i :: 0 <= i < |x| ==> SameFold(x[i], y[i])
  }

  /** Equality of names up to case. */
  ghost predicate SameName(n: Name, m: Name) {
    Valid(n) && Valid(m) && SameLabels(Labels(n), Labels(m))
  }

  lemma {:induction false} SameLabelsSameWire(x: seq<Label>, y: seq<Label>)
    requires SameLabels(x, y)
    ensures SameFold(Body(x), Body(y)) && SameFold(Wire(x), Wire(y))
  {
    if x != [] {
      assert SameFold(x[0], y[0]);
      SameLabelsSameWire(x[1..], y[1..]);
    }
  }

  /** Folding case never moves a length octet, so the label structure can be read off. */
  lemma {:induction false} SameWireSameLabels(x: seq<Label>, y: seq<Label>)
    requires SameFold(Wire(x), Wire(y))
    ensures SameLabels(x, y)
  {
    var wx, wy := Wire(x), Wire(y);
    assert Lower(wx[0]) == Lower(wy[0]);
    if x != [] {
      assert y != [] && |x[0]| == |y[0]|;
      var m := |x[0]| + 1;
      assert wx == [|x[0]| as byte] + x[0] + Wire(x[1..]);
      assert wy == [|y[0]| as byte] + y[0] + Wire(y[1..]);
      forall i | 0 <= i < |x[0]|
        ensures Lower(x[0][i]) == Lower(y[0][i])
      {
        assert wx[i + 1] == x[0][i] && wy[i + 1] == y[0][i];
      }
      forall i | 0 <= i < |Wire(x[1..])|
        ensures |Wire(x[1..])| == |Wire(y[1..])| && Lower(Wire(x[1..])[i]) == Lower(Wire(y[1..])[i])
      {
        assert wx[i + m] == Wire(x[1..])[i] && wy[i + m] == Wire(y[1..])[i];
      }
      SameWireSameLabels(x[1..], y[1..]);
    }
  }

  // ----- The hash of a name -----

  /** Bitwise exclusive or, taken bit by bit. */
  function Xor(x: nat, y: nat): nat
    decreases x + y
  {
    if x == 0 && y == 0 then 0 else (if x % 2 == y % 2 then 0 else 1) + 2 * Xor(x / 2, y / 2)
  }

  /** One round on 32-bit words: the sum and the left shift wrap around. */
  function Mix(hash: uint32, b: byte): uint32 {
    Xor(hash, (b + 0x9e37_79b9 + hash * 64 + hash / 4) % 0x1_0000_0000) % 0x1_0000_0000
  }

  function HashPrefix(raw: bytes, n: nat): uint32
    requires n <= |raw|
  {
    if n == 0 then 0 else Mix(HashPrefix(raw, n - 1), Lower(raw[n - 1]))
  }

  function Hash(raw: bytes): uint32 {
    HashPrefix(raw, |raw|)
  }

  /** The same without folding. */
  function ExactPrefix(raw: bytes, n: nat): uint32
    requires n <= |raw|
  {
    if n == 0 then 0 else Mix(ExactPrefix(raw, n - 1), raw[n - 1])
  }

  function ExactHash(raw: bytes): uint32 {
    ExactPrefix(raw, |raw|)
  }

  method HashRaw(raw: bytes, caseSensitive: bool) returns (hash: uint32)
    ensures hash == if caseSensitive then ExactHash(raw) else Hash(raw)
  {
    hide Mix;
    hash := 0;
    if caseSensitive {
      for i := 0 to |raw|
        invariant hash == ExactPrefix(raw, i)
      {
        hash := Mix(hash, raw[i]);
      }
    } else {
      for i := 0 to |raw|
        invariant hash == HashPrefix(raw, i)
      {
        hash := Mix(hash, Lower(raw[i]));
      }
    }
  }

  /** Folding first and hashing exactly is hashing without regard to case. */
  lemma {:induction false} FoldedHash(raw: bytes, n: nat)
    requires n <= |raw|
    ensures ExactPrefix(LowerAll(raw), n) == HashPrefix(raw, n)
  {
    hide Mix;
    if n > 0 {
      FoldedHash(raw, n - 1);
    }
  }

  /** Names equal up to case have equal hashes. */
  lemma SameFoldSameHash(s: bytes, t: bytes)
    requires SameFold(s, t)
    ensures Hash(s) == Hash(t)
  {
    SameFoldSamePrefixHash(s, t, |s|);
  }

  lemma {:induction false} SameFoldSamePrefixHash(s: bytes, t: bytes, n: nat)
    requires SameFold(s, t) && n <= |s|
    ensures HashPrefix(s, n) == HashPrefix(t, n)
  {
    if n > 0 {
      SameFoldSamePrefixHash(s, t, n - 1);
    }
  }
}
