/**
  * Why compression needs names without zero octets, or without clashing hashes: three names of
  * the same hash and size after which the third one reads back as the first.
  */
module NameClash {
  import opened Octets
  import opened Options
  import opened Names
  import opened NameWire
  import opened Compression

  // ----- The hash, digit by digit -----

  lemma XorBit(x: nat, y: nat, a: nat, b: nat)
    requires a < 2 && b < 2
    ensures Xor(2 * x + a, 2 * y + b) == 2 * Xor(x, y) + if a == b then 0 else 1
  {
    assert (2 * x + a) / 2 == x && (2 * y + b) / 2 == y && (2 * x + a) % 2 == a && (2 * y + b) % 2 == b;
  }

  /** The bit of value `p` in the exclusive or of numbers below `2 * p`. */
  function Top(a: nat, b: nat, p: nat): nat {
    if (a >= p) == (b >= p) then 0 else p
  }

  function Rest(a: nat, p: nat): nat {
    if a >= p then a - p else a
  }

  /** Exclusive or of two hexadecimal digits. */
  function Digit(a: nat, b: nat): nat {
    var a2, b2 := Rest(a, 8), Rest(b, 8);
    var a1, b1 := Rest(a2, 4), Rest(b2, 4);
    Top(a, b, 8) + Top(a2, b2, 4) + Top(a1, b1, 2) + Top(Rest(a1, 2), Rest(b1, 2), 1)
  }

  /** Two bits at once. */
  lemma XorTwo(x: nat, y: nat, a: nat, b: nat)
    requires a < 4 && b < 4
    ensures Xor(4 * x + a, 4 * y + b) == 4 * Xor(x, y) + Top(a, b, 2) + Top(Rest(a, 2), Rest(b, 2), 1)
  {
    hide Xor;
    var a1, b1 := if a >= 2 then 1 else 0, if b >= 2 then 1 else 0;
    XorBit(x, y, a1, b1);
    XorBit(2 * x + a1, 2 * y + b1, Rest(a, 2), Rest(b, 2));
  }

  lemma XorDigit(x: nat, y: nat, a: nat, b: nat)
    requires a < 16 && b < 16
    ensures Xor(16 * x + a, 16 * y + b) == 16 * Xor(x, y) + Digit(a, b)
  {
    hide Xor;
    var a2, b2 := Rest(a, 8), Rest(b, 8);
    var a', b' := (if a >= 8 then 2 else 0) + (if a2 >= 4 then 1 else 0),
      (if b >= 8 then 2 else 0) + (if b2 >= 4 then 1 else 0);
    XorTwo(x, y, a', b');
    XorTwo(4 * x + a', 4 * y + b', Rest(a2, 4), Rest(b2, 4));
  }

  lemma XorZero()
    ensures Xor(0, 0) == 0
  {
  }

  /** A word from its eight digits, highest first. */
  function Word(c0: nat, c1: nat, c2: nat, c3: nat, c4: nat, c5: nat, c6: nat, c7: nat): nat {
    16 * (16 * (16 * (16 * (16 * (16 * (16 * c0 + c1) + c2) + c3) + c4) + c5) + c6) + c7
  }

  predicate Digits(c0: nat, c1: nat, c2: nat, c3: nat, c4: nat, c5: nat, c6: nat, c7: nat) {
    c0 < 16 && c1 < 16 && c2 < 16 && c3 < 16 && c4 < 16 && c5 < 16 && c6 < 16 && c7 < 16
  }

  lemma XorWords(c0: nat, c1: nat, c2: nat, c3: nat, c4: nat, c5: nat, c6: nat, c7: nat,
                 d0: nat, d1: nat, d2: nat, d3: nat, d4: nat, d5: nat, d6: nat, d7: nat)
    requires Digits(c0, c1, c2, c3, c4, c5, c6, c7) && Digits(d0, d1, d2, d3, d4, d5, d6, d7)
    ensures Xor(Word(c0, c1, c2, c3, c4, c5, c6, c7), Word(d0, d1, d2, d3, d4, d5, d6, d7))
            == Word(Digit(c0, d0), Digit(c1, d1), Digit(c2, d2), Digit(c3, d3),
                    Digit(c4, d4), Digit(c5, d5), Digit(c6, d6), Digit(c7, d7))
  {
    hide Xor, Digit;
    var x1, y1 := 16 * c0 + c1, 16 * d0 + d1;
    var x2, y2 := 16 * x1 + c2, 16 * y1 + d2;
    var x3, y3 := 16 * x2 + c3, 16 * y2 + d3;
    var x4, y4 := 16 * x3 + c4, 16 * y3 + d4;
    var x5, y5 := 16 * x4 + c5, 16 * y4 + d5;
    var x6, y6 := 16 * x5 + c6, 16 * y5 + d6;
    XorZero();
    XorDigit(0, 0, c0, d0);
    XorDigit(c0, d0, c1, d1);
    XorDigit(x1, y1, c2, d2);
    XorDigit(x2, y2, c3, d3);
    XorDigit(x3, y3, c4, d4);
    XorDigit(x4, y4, c5, d5);
    XorDigit(x5, y5, c6, d6);
    XorDigit(x6, y6, c7, d7);
  }

  /** One round of the hash, from the digits of the state and those of the sum. */
  lemma Round(h: uint32, b: byte, r: uint32, c0: nat, c1: nat, c2: nat, c3: nat, c4: nat, c5: nat, c6: nat, c7: nat,
              d0: nat, d1: nat, d2: nat, d3: nat, d4: nat, d5: nat, d6: nat, d7: nat)
    requires Digits(c0, c1, c2, c3, c4, c5, c6, c7) && Digits(d0, d1, d2, d3, d4, d5, d6, d7)
    requires h == Word(c0, c1, c2, c3, c4, c5, c6, c7)
    requires Word(d0, d1, d2, d3, d4, d5, d6, d7) == (b + 0x9e37_79b9 + h * 64 + h / 4) % 0x1_0000_0000
    requires r == Word(Digit(c0, d0), Digit(c1, d1), Digit(c2, d2), Digit(c3, d3),
                       Digit(c4, d4), Digit(c5, d5), Digit(c6, d6), Digit(c7, d7))
    ensures Mix(h, b) == r
  {
    hide Xor, Digit, Word, Digits;
    XorWords(c0, c1, c2, c3, c4, c5, c6, c7, d0, d1, d2, d3, d4, d5, d6, d7);
  }

  // ----- Three names of one hash -----

  const FIRST: Label := [247, 131, 0, 0]
  const SECOND: Label := [244, 194, 247, 131]
  const THIRD: Label := [241, 4, 247, 131]

  const HASH: uint32 := 0xd123_7147

  lemma {:induction false} XorWithZero(y: nat)
    ensures Xor(0, y) == y
  {
    if y > 0 {
      XorWithZero(y / 2);
    }
  }

  lemma FirstRound()
    ensures Mix(0, 4) == 0x9e37_79bd
  {
    hide Xor;
    XorWithZero(0x9e37_79bd);
  }

  lemma FirstRounds()
    ensures Mix(0x9e37_79bd, 247) == 0xcd94_b1e2
    ensures Mix(0xcd94_b1e2, 131) == 0xfb5d_aed6
  {
    hide Mix;
    Round(0x9e37_79bd, 247, 0xcd94_b1e2, 9, 0xe, 3, 7, 7, 9, 0xb, 0xd, 5, 3, 0xa, 3, 0xc, 8, 5, 0xf);
    Round(0xcd94_b1e2, 131, 0xfb5d_aed6, 0xc, 0xd, 9, 4, 0xb, 1, 0xe, 2, 3, 6, 0xc, 9, 1, 0xf, 3, 4);
  }

  lemma FirstRoundsLeft()
    ensures Mix(0xfb5d_aed6, 0) == 0x4f27_3438
    ensures Mix(0x4f27_3438, 0) == 0x34e9_60ff
    ensures Mix(0x34e9_60ff, 0) == 0xd123_7147
  {
    hide Mix;
    Round(0xfb5d_aed6, 0, 0x4f27_3438, 0xf, 0xb, 5, 0xd, 0xa, 0xe, 0xd, 6, 0xb, 4, 7, 0xa, 9, 0xa, 0xe, 0xe);
    Round(0x4f27_3438, 0, 0x34e9_60ff, 4, 0xf, 2, 7, 3, 4, 3, 8, 7, 0xb, 0xc, 0xe, 5, 4, 0xc, 7);
    Round(0x34e9_60ff, 0, 0xd123_7147, 3, 4, 0xe, 9, 6, 0, 0xf, 0xf, 0xe, 5, 0xc, 0xa, 1, 1, 0xb, 8);
  }

  lemma ThirdRounds()
    ensures Mix(0x9e37_79bd, 241) == 0xcd94_b1e4
    ensures Mix(0xcd94_b1e4, 4) == 0xfb5d_aed2
    ensures Mix(0xfb5d_aed2, 247) == 0x4f27_3436
  {
    hide Mix;
    Round(0x9e37_79bd, 241, 0xcd94_b1e4, 9, 0xe, 3, 7, 7, 9, 0xb, 0xd, 5, 3, 0xa, 3, 0xc, 8, 5, 9);
    Round(0xcd94_b1e4, 4, 0xfb5d_aed2, 0xc, 0xd, 9, 4, 0xb, 1, 0xe, 4, 3, 6, 0xc, 9, 1, 0xf, 3, 6);
    Round(0xfb5d_aed2, 247, 0x4f27_3436, 0xf, 0xb, 5, 0xd, 0xa, 0xe, 0xd, 2, 0xb, 4, 7, 0xa, 9, 0xa, 0xe, 4);
  }

  lemma ThirdRoundsLeft()
    ensures Mix(0x4f27_3436, 131) == 0x34e9_60ff
    ensures Mix(0x34e9_60ff, 0) == 0xd123_7147
  {
    hide Mix;
    Round(0x4f27_3436, 131, 0x34e9_60ff, 4, 0xf, 2, 7, 3, 4, 3, 6, 7, 0xb, 0xc, 0xe, 5, 4, 0xc, 9);
    Round(0x34e9_60ff, 0, 0xd123_7147, 3, 4, 0xe, 9, 6, 0, 0xf, 0xf, 0xe, 5, 0xc, 0xa, 1, 1, 0xb, 8);
  }

  lemma SecondRounds()
    ensures Mix(0x9e37_79bd, 244) == 0xcd94_b1e1
    ensures Mix(0xcd94_b1e1, 194) == 0xfb5d_aed2
  {
    hide Mix;
    Round(0x9e37_79bd, 244, 0xcd94_b1e1, 9, 0xe, 3, 7, 7, 9, 0xb, 0xd, 5, 3, 0xa, 3, 0xc, 8, 5, 0xc);
    Round(0xcd94_b1e1, 194, 0xfb5d_aed2, 0xc, 0xd, 9, 4, 0xb, 1, 0xe, 1, 3, 6, 0xc, 9, 1, 0xf, 3, 3);
  }

  lemma WireOne(l: Label)
    ensures Wire([l]) == [|l| as byte] + l + [0] && |Wire([l])| == |l| + 2
  {
    assert Body([l]) == [|l| as byte] + l + Body([]);
  }

  lemma FirstHash()
    ensures Hash(Wire([FIRST])) == HASH
  {
    hide Mix;
    FirstRound();
    FirstRounds();
    FirstRoundsLeft();
    var w := Wire([FIRST]);
    WireOne(FIRST);
    assert HashPrefix(w, 1) == 0x9e37_79bd;
    assert HashPrefix(w, 2) == 0xcd94_b1e2;
    assert HashPrefix(w, 3) == 0xfb5d_aed6;
    assert HashPrefix(w, 4) == 0x4f27_3438;
    assert HashPrefix(w, 5) == 0x34e9_60ff;
    assert HashPrefix(w, 6) == 0xd123_7147;
  }

  lemma SecondHash()
    ensures Hash(Wire([SECOND])) == HASH
  {
    hide Mix;
    FirstRound();
    SecondRounds();
    ThirdRounds();
    ThirdRoundsLeft();
    var w := Wire([SECOND]);
    WireOne(SECOND);
    assert HashPrefix(w, 1) == 0x9e37_79bd;
    assert HashPrefix(w, 2) == 0xcd94_b1e1;
    assert HashPrefix(w, 3) == 0xfb5d_aed2;
    assert HashPrefix(w, 4) == 0x4f27_3436;
    assert HashPrefix(w, 5) == 0x34e9_60ff;
    assert HashPrefix(w, 6) == 0xd123_7147;
  }

  lemma ThirdHash()
    ensures Hash(Wire([THIRD])) == HASH
  {
    hide Mix;
    FirstRound();
    ThirdRounds();
    ThirdRoundsLeft();
    var w := Wire([THIRD]);
    WireOne(THIRD);
    assert HashPrefix(w, 1) == 0x9e37_79bd;
    assert HashPrefix(w, 2) == 0xcd94_b1e4;
    assert HashPrefix(w, 3) == 0xfb5d_aed2;
    assert HashPrefix(w, 4) == 0x4f27_3436;
    assert HashPrefix(w, 5) == 0x34e9_60ff;
    assert HashPrefix(w, 6) == 0xd123_7147;
  }

  // ----- A run that takes one name for another -----

  function ThreeNames(): seq<Op> {
    [OpName([FIRST], true), OpName([SECOND], true), OpName([THIRD], true)]
  }

  /** What the bucket of this hash holds. */
  ghost predicate OnlyBucket(st: State, items: seq<Item>) {
    |st.table| == BUCKETS && st.table[HASH % BUCKETS] == items
  }

  lemma OneSearch(st: State, l: Label)
    requires |st.table| == BUCKETS && Hash(Wire([l])) == HASH
    ensures Search(st.table, [l], 0) ==
      match FindIn(st.table[HASH % BUCKETS], Wire([l]), HASH, 0)
      case Some(item) => HitAt(0, item)
      case None => Miss
  {
    hide Hash, FindIn;
    assert [l][0..] == [l];
  }

  /** A one-label name that is not found is spelled out and entered. */
  lemma OneWritten(st: State, l: Label, items: seq<Item>)
    requires OnlyBucket(st, items) && Hash(Wire([l])) == HASH && FindIn(items, Wire([l]), HASH, 0) == None
    requires |st.buf| <= MAX_COMPRESS_POINTER
    ensures var st' := WriteName(st, [l], true);
      OnlyBucket(st', items + [Item(HASH, |st.buf|, [l])]) && |st'.buf| == |st.buf| + |l| + 2
  {
    hide Hash, FindIn, Search;
    OneSearch(st, l);
    WireOne(l);
    StartOffset([l]);
    assert [l][..1] == [l] && [l][0..] == [l] && [l][0..1] + [] == [l];
    assert AddSuffixes(AddItem(st.table, Item(HASH, |st.buf|, [l])), [l], 1, 1, |st.buf|, []) ==
           AddItem(st.table, Item(HASH, |st.buf|, [l]));
  }

  /** The second name is not the first, and the comparison with the third one stops behind two octets. */
  lemma SecondDiffers()
    ensures !MatchFrom(Wire([FIRST]), 0, Wire([SECOND]), 0).0
    ensures MatchFrom(Wire([SECOND]), 0, Wire([THIRD]), 0) == (false, 2)
  {
    WireOne(FIRST);
    WireOne(SECOND);
    WireOne(THIRD);
    var a, b, c := Wire([FIRST]), Wire([SECOND]), Wire([THIRD]);
    assert a[0] == b[0] == c[0] == 4 && a[1] == 247 && b[1] == 244 && c[1] == 241;
    MatchStep(a, 0, b, 0);
    MatchStep(a, 1, b, 1);
    MatchStep(b, 0, c, 0);
    MatchStep(b, 1, c, 1);
  }

  /** From there on the third name reads like the first one, zeros behind its end included. */
  lemma ThirdSlips()
    ensures MatchFrom(Wire([FIRST]), 0, Wire([THIRD]), 2).0
  {
    WireOne(FIRST);
    WireOne(THIRD);
    var a, c := Wire([FIRST]), Wire([THIRD]);
    assert a == [4, 247, 131, 0, 0, 0] && c == [4, 241, 4, 247, 131, 0];
    MatchStep(a, 0, c, 2);
    MatchStep(a, 1, c, 3);
    MatchStep(a, 2, c, 4);
    MatchStep(a, 3, c, 5);
    MatchStep(a, 4, c, 6);
    MatchStep(a, 5, c, 6);
  }

  lemma FindNone(name: bytes, cur: nat)
    ensures FindIn([], name, HASH, cur) == None
  {
  }

  /** A candidate at the end of the bucket, of the right hash and size. */
  lemma FindLast(items: seq<Item>, item: Item, name: bytes, cur: nat)
    requires item.hash == HASH && |Wire(item.ls)| == |name|
    ensures var (found, cur') := MatchFrom(Wire(item.ls), 0, name, cur);
      FindIn(items + [item], name, HASH, cur) == if found then Some(item) else FindIn(items, name, HASH, cur')
  {
    assert (items + [item])[..|items|] == items;
  }

  lemma ThreeGood()
    ensures GoodRun(ThreeNames()) && FitsName([FIRST]) && FitsName([SECOND]) && FitsName([THIRD])
  {
    WireOne(FIRST);
    WireOne(SECOND);
    WireOne(THIRD);
  }

  /** The three writes, one after the other. */
  lemma ThreeWrites() returns (s1: State, s2: State)
    ensures s1 == WriteName(Fresh(), [FIRST], true) && s2 == WriteName(s1, [SECOND], true)
    ensures |s2.table| == BUCKETS && Search(s2.table, [THIRD], 0) == HitAt(0, Item(HASH, 0, [FIRST]))
  {
    hide Hash, MatchFrom, FindIn, Search, WriteName;
    FirstHash();
    SecondHash();
    ThirdHash();
    SecondDiffers();
    ThirdSlips();
    WireOne(FIRST);
    WireOne(SECOND);
    WireOne(THIRD);
    var i1 := Item(HASH, 0, [FIRST]);
    FindNone(Wire([FIRST]), 0);
    OneWritten(Fresh(), FIRST, []);
    s1 := WriteName(Fresh(), [FIRST], true);
    assert [] + [i1] == [i1];
    FindLast([], i1, Wire([SECOND]), 0);
    FindNone(Wire([SECOND]), MatchFrom(Wire([FIRST]), 0, Wire([SECOND]), 0).1);
    OneWritten(s1, SECOND, [i1]);
    s2 := WriteName(s1, [SECOND], true);
    var i2 := Item(HASH, |s1.buf|, [SECOND]);
    FindLast([i1], i2, Wire([THIRD]), 0);
    FindLast([], i1, Wire([THIRD]), 2);
    OneSearch(s2, THIRD);
  }

  lemma ThreeRuns(s1: State, s2: State)
    requires s1 == WriteName(Fresh(), [FIRST], true) && s2 == WriteName(s1, [SECOND], true)
    ensures Run(ThreeNames()[..2]) == s2 && Run(ThreeNames()[..3]) == WriteName(s2, [THIRD], true) == Run(ThreeNames())
  {
    hide WriteName;
    var ops := ThreeNames();
    assert ops[..0] == [];
    RunStep(ops, 0);
    RunStep(ops, 1);
    RunStep(ops, 2);
    assert ops[..3] == ops;
  }

  /**
    * Written with compression one after the other, the third name comes back as the first:
    * the comparison with the second one, which has the same hash and size, leaves the cursor
    * inside the third name, and from there it matches the first.
    */
  lemma ThirdReadsAsFirst()
    ensures GoodRun(ThreeNames()) && Before(ThreeNames(), 2) <= |Run(ThreeNames()).buf|
    ensures var d := DecodeName(Run(ThreeNames()).buf, Before(ThreeNames(), 2)); d.Ok? && d.ls == [FIRST]
    ensures !SameLabels([FIRST], [THIRD])
  {
    hide Hash, MatchFrom, FindIn, Search, WriteName, Run, At, Stop, Decode, Inv, SafeTable;
    ThreeGood();
    var s1, s2 := ThreeWrites();
    ThreeRuns(s1, s2);
    RunInvariant(ThreeNames(), 2);
    WriteNameKeeps(s2, [THIRD], true, NoNuls);
    SplitIs(s2);
    var s3 := WriteName(s2, [THIRD], true);
    AtInside(s3.buf, s3.mask, |s2.buf|, |s2.buf|, [FIRST]);
    AtDecodes(s3.buf, s3.mask, |s2.buf|, |s2.buf|, [FIRST], 0);
    assert Lower(FIRST[0]) != Lower(THIRD[0]);
    assert !SameFold([FIRST][0], [THIRD][0]);
  }

  lemma SplitIs(st: State)
    requires |st.table| == BUCKETS && Search(st.table, [THIRD], 0) == HitAt(0, Item(HASH, 0, [FIRST]))
    ensures ReadBack(st, [THIRD], true) == [FIRST]
  {
    assert [THIRD][..0] + [FIRST] == [FIRST];
  }
}
