/**
  * The bits that `cement/netradix/tree.go` reads off a key and a mask, one after the other from
  * `startbit` on, and what they amount to as numbers: as many as the mask has leading ones,
  * and the same for two keys exactly when the keys agree in that many leading bits.
  */
module NetBits {
  import opened Octets

  const START_BIT: nat := 0x8000_0000

  /** Whether a word has a bit, given as a power of two; the bit is 0 after the last one. */
  predicate Test(x: uint32, bit: nat) {
    bit != 0 && (x / bit) % 2 == 1
  }

  /** The bits of a key from `bit` on, as far as the mask goes without a gap. */
  function Prefix(key: uint32, mask: uint32, bit: nat): seq<bool>
    decreases bit
  {
    if Test(mask, bit) then [Test(key, bit)] + Prefix(key, mask, bit / 2) else []
  }

  // ----- As numbers -----

  function Pow2(n: nat): (p: nat)
    ensures p > 0
  {
    if n == 0 then 1 else 2 * Pow2(n - 1)
  }

  /** How many of the `w` bits of a number are ones before the first zero, from the top on. */
  function Leading(x: nat, w: nat): (n: nat)
    ensures n <= w
  {
    if w == 0 || x < Pow2(w - 1) then 0 else 1 + Leading(x - Pow2(w - 1), w - 1)
  }

  function Ones(mask: uint32): (n: nat)
    ensures n <= 32
  {
    Leading(mask, 32)
  }

  /** The mask of the network length `n`. */
  function NetMask(n: nat): int
    requires n <= 32
  {
    0x1_0000_0000 - Pow2(32 - n)
  }

  lemma Pow32()
    ensures Pow2(32) == 0x1_0000_0000 && Pow2(31) == START_BIT
  {
    assert Pow2(8) == 0x100;
    assert Pow2(16) == 0x1_0000;
    assert Pow2(24) == 0x100_0000;
    assert Pow2(31) == 0x8000_0000;
  }

  lemma {:induction false} Pow2Sum(a: nat, b: nat)
    ensures Pow2(a + b) == Pow2(a) * Pow2(b)
  {
    if a > 0 {
      Pow2Sum(a - 1, b);
    }
  }

  lemma DivMod(x: nat, d: nat, q: nat, r: nat)
    requires r < d && x == q * d + r
    ensures x / d == q && x % d == r
  {
    var k := x / d - q;
    assert x == x / d * d + x % d;
    assert k * d == r - x % d by {
      assert k * d == x / d * d - q * d;
    }
    if k > 0 {
      Multiple(k, d);
    }
  }

  lemma {:induction false} Multiple(k: nat, d: nat)
    requires k > 0
    ensures k * d >= d
  {
    if k > 1 {
      Multiple(k - 1, d);
      assert k * d == (k - 1) * d + d;
    }
  }

  lemma Regroup(h: nat, b: nat, p: nat)
    ensures (2 * h + b) * p == h * (2 * p) + b * p
  {
  }

  /** The remainder by twice a number. */
  lemma Halves(x: nat, p: nat)
    requires p > 0
    ensures x % (2 * p) == (if x / p % 2 == 1 then p else 0) + x % p
  {
    var q, r := x / p, x % p;
    var h, b := q / 2, q % 2;
    Regroup(h, b, p);
    assert q == 2 * h + b;
    assert b * p == if b == 1 then p else 0;
    DivMod(x, 2 * p, h, b * p + r);
  }

  /** A multiple of the divisor on top of a number. */
  lemma Quotient(p: nat, r: nat, d: nat)
    requires d > 0
    ensures (p * d + r) / d == p + r / d
    ensures r < p * d ==> r / d < p
  {
    var q, m := r / d, r % d;
    assert r == q * d + m;
    assert p * d + r == (p + q) * d + m by {
      assert (p + q) * d == p * d + q * d;
    }
    DivMod(p * d + r, d, p + q, m);
    if q >= p {
      assert q * d == p * d + (q - p) * d >= p * d;
    }
  }

  /** The bit that a loop reads when `w` bits are left. */
  function Bit(w: nat): nat {
    if w == 0 then 0 else Pow2(w - 1)
  }

  /** The top one of the `w` last bits of a number, and what is left below it. */
  lemma TopBit(x: uint32, w: nat)
    requires w > 0
    ensures x % Pow2(w) == (if Test(x, Bit(w)) then Pow2(w - 1) else 0) + x % Pow2(w - 1)
    ensures Bit(w) / 2 == Bit(w - 1)
  {
    hide Pow2;
    Twice(w);
    Twice(w - 1);
    Halves(x, Pow2(w - 1));
  }

  lemma Twice(w: nat)
    ensures w > 0 ==> Pow2(w) == 2 * Pow2(w - 1)
    ensures w == 0 ==> Pow2(w) == 1
  {
  }

  lemma {:induction false} PrefixSize(key: uint32, mask: uint32, w: nat)
    ensures |Prefix(key, mask, Bit(w))| == Leading(mask % Pow2(w), w)
  {
    hide Test, Pow2;
    if w == 0 {
      TestNone(mask);
    } else {
      TopBit(mask, w);
      PrefixSize(key, mask, w - 1);
    }
  }

  lemma TestNone(x: uint32)
    ensures !Test(x, 0) && Bit(0) == 0
  {
  }

  /** Two numbers, each with a bit on top, have the same quotient exactly when bits and rests agree. */
  lemma SameQuotient(b: bool, r: nat, b': bool, r': nat, p: nat, d: nat)
    requires d > 0 && r < p * d && r' < p * d
    ensures ((if b then p * d else 0) + r) / d == ((if b' then p * d else 0) + r') / d <==> b == b' && r / d == r' / d
  {
    Quotient(p, r, d);
    Quotient(p, r', d);
  }

  /** The first `n` bits of one key are all the bits of another exactly when the numbers say so. */
  lemma {:induction false} PrefixTells(key: uint32, mask: uint32, n: nat, key': uint32, mask': uint32, w: nat)
    requires n <= |Prefix(key, mask, Bit(w))|
    ensures n <= w
    ensures Prefix(key, mask, Bit(w))[..n] == Prefix(key', mask', Bit(w)) <==>
      && Leading(mask' % Pow2(w), w) == n
      && key % Pow2(w) / Pow2(w - n) == key' % Pow2(w) / Pow2(w - n)
    decreases w
  {
    hide *;
    PrefixSize(key, mask, w);
    PrefixSize(key', mask', w);
    var p, p' := Prefix(key, mask, Bit(w)), Prefix(key', mask', Bit(w));
    if n == 0 {
      DivMod(key % Pow2(w), Pow2(w), 0, key % Pow2(w));
      DivMod(key' % Pow2(w), Pow2(w), 0, key' % Pow2(w));
      assert p[..0] == [];
    } else if p' != [] {
      PrefixParts(key, mask, w);
      PrefixParts(key', mask', w);
      PrefixTells(key, mask, n - 1, key', mask', w - 1);
      PrefixSize(key', mask', w - 1);
      Pow2Sum(n - 1, w - n);
      TopBit(key, w);
      TopBit(key', w);
      SameQuotient(Test(key, Bit(w)), key % Pow2(w - 1), Test(key', Bit(w)), key' % Pow2(w - 1), Pow2(n - 1),
        Pow2(w - n));
      SameFirst(Test(key, Bit(w)), Prefix(key, mask, Bit(w - 1)), Test(key', Bit(w)), Prefix(key', mask', Bit(w - 1)),
        n);
    }
  }

  lemma SameFirst(b: bool, t: seq<bool>, b': bool, t': seq<bool>, n: nat)
    requires 0 < n <= |t| + 1
    ensures ([b] + t)[..n] == [b'] + t' <==> b == b' && t[..n - 1] == t'
  {
    assert ([b] + t)[..n] == [b] + t[..n - 1];
    assert ([b] + t[..n - 1])[1..] == t[..n - 1] && ([b'] + t')[1..] == t';
  }

  lemma PrefixParts(key: uint32, mask: uint32, w: nat)
    requires Prefix(key, mask, Bit(w)) != []
    ensures w > 0 && Prefix(key, mask, Bit(w)) == [Test(key, Bit(w))] + Prefix(key, mask, Bit(w - 1))
  {
    TestNone(mask);
    TopBit(key, w);
  }

  lemma SmallWord(x: uint32)
    ensures x % Pow2(32) == x
  {
    hide Pow2;
    Pow32();
  }

  /** The whole of it, from the first bit on. */
  lemma SamePrefix(key: uint32, mask: uint32, n: nat, key': uint32, mask': uint32)
    requires n <= Ones(mask)
    ensures |Prefix(key, mask, START_BIT)| == Ones(mask)
    ensures Prefix(key, mask, START_BIT)[..n] == Prefix(key', mask', START_BIT) <==>
      Ones(mask') == n && key / Pow2(32 - n) == key' / Pow2(32 - n)
  {
    hide Pow2, Prefix, Leading;
    Pow32();
    SmallWord(key);
    SmallWord(key');
    SmallWord(mask);
    SmallWord(mask');
    PrefixSize(key, mask, 32);
    PrefixTells(key, mask, n, key', mask', 32);
  }

  /** A mask has `n` leading ones exactly when it lies between two network masks. */
  lemma {:induction false} LeadingTold(x: nat, w: nat, n: nat)
    requires x < Pow2(w) && n <= w
    ensures Leading(x, w) == n <==>
      Pow2(w) - Pow2(w - n) <= x && (n < w ==> x < Pow2(w) - Pow2(w - n - 1))
    decreases w
  {
    if w > 0 {
      Rises(w - 1, w - n);
      if x >= Pow2(w - 1) && n > 0 {
        LeadingTold(x - Pow2(w - 1), w - 1, n - 1);
      }
    }
  }

  lemma {:induction false} Rises(a: nat, b: nat)
    ensures a <= b ==> Pow2(a) <= Pow2(b)
    ensures a >= b ==> Pow2(a) >= Pow2(b)
    decreases a + b
  {
    if a > 0 && b > 0 {
      Rises(a - 1, b - 1);
    }
  }

  lemma OnesTold(mask: uint32, n: nat)
    requires n <= 32
    ensures Ones(mask) == n <==> NetMask(n) <= mask && (n < 32 ==> mask < NetMask(n + 1))
  {
    Pow32();
    LeadingTold(mask, 32, n);
  }

  /**
    * For network masks: `n` bits are read, and two keys have the same bits exactly when they
    * agree in their quotients by the size of the network.
    */
  lemma NetPrefix(key: uint32, key': uint32, n: nat)
    requires n <= 32
    ensures 0 <= NetMask(n) < 0x1_0000_0000 && Ones(NetMask(n)) == n
    ensures var p, p' := Prefix(key, NetMask(n), START_BIT), Prefix(key', NetMask(n), START_BIT);
      |p| == n && (p == p' <==> key / Pow2(32 - n) == key' / Pow2(32 - n))
  {
    hide Prefix, Ones;
    Pow32();
    Rises(32 - n, 32);
    if n < 32 {
      Twice(32 - n);
    }
    OnesTold(NetMask(n), n);
    SamePrefix(key, NetMask(n), n, key', NetMask(n));
    assert Prefix(key, NetMask(n), START_BIT)[..n] == Prefix(key, NetMask(n), START_BIT);
  }
}
