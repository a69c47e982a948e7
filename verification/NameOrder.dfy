/**
  * The canonical order of names (section 6.1 of RFC 4034) and the comparison that the
  * library runs over offset tables from the rightmost label on.
  */
module NameOrder {
  import opened Octets
  import opened Names

  // ----- The order, stated without the algorithm -----

  ghost predicate AgreeUpto(a: bytes, b: bytes, i: nat)
    requires i <= |a| && i <= |b|
  {
    forall j :: 0 <= j < i ==> Lower(a[j]) == Lower(b[j])
  }

  /** `i` is where `a` falls below `b`: its end, or a smaller octet. */
  ghost predicate DropsAt(a: bytes, b: bytes, i: nat) {
    i <= |a| && i < |b| && AgreeUpto(a, b, i) && (i == |a| || Lower(a[i]) < Lower(b[i]))
  }

  ghost predicate LabelLess(a: bytes, b: bytes) {
    exists i: nat :: DropsAt(a, b, i)
  }

  /** Label `k` from the right, and agreement of the rightmost `k` labels. */
  function FromRight(ls: seq<Label>, k: nat): Label
    requires k < |ls|
  {
    ls[|ls| - 1 - k]
  }

  ghost predicate Agree(x: seq<Label>, y: seq<Label>, k: nat)
    requires k <= |x| && k <= |y|
  {
    forall j :: 0 <= j < k ==> SameFold(FromRight(x, j), FromRight(y, j))
  }

  ghost predicate FallsAt(x: seq<Label>, y: seq<Label>, k: nat) {
    && k <= |x| && k < |y| && Agree(x, y, k)
    && (k == |x| || LabelLess(FromRight(x, k), FromRight(y, k)))
  }

  /** Lexicographic order of the label lists read from the right. */
  ghost predicate NameLess(x: seq<Label>, y: seq<Label>) {
    exists k: nat :: FallsAt(x, y, k)
  }

  /** Labels in order: the end comes before every octet, and the first octets that differ decide. */
  lemma LabelOrder(a: bytes, b: bytes)
    ensures LabelLess(a, b) <==>
      && b != []
      && (a == [] || Lower(a[0]) < Lower(b[0]) || (Lower(a[0]) == Lower(b[0]) && LabelLess(a[1..], b[1..])))
  {
    if LabelLess(a, b) {
      var i: nat :| DropsAt(a, b, i);
      if i > 0 {
        assert DropsAt(a[1..], b[1..], i - 1);
      }
    }
    if b != [] && (a == [] || Lower(a[0]) < Lower(b[0])) {
      assert DropsAt(a, b, 0);
    } else if b != [] && Lower(a[0]) == Lower(b[0]) && LabelLess(a[1..], b[1..]) {
      var i: nat :| DropsAt(a[1..], b[1..], i);
      forall j | 0 <= j < i + 1 ensures Lower(a[j]) == Lower(b[j]) {
        if j > 0 {
          assert Lower(a[1..][j - 1]) == Lower(b[1..][j - 1]);
        }
      }
      assert DropsAt(a, b, i + 1);
    }
  }

  /** Names in order: the last labels decide, and where they agree the labels before them. */
  lemma NameOrderTold(x: seq<Label>, y: seq<Label>)
    ensures NameLess(x, y) <==>
      && y != []
      && (|| x == [] || LabelLess(x[|x| - 1], y[|y| - 1])
          || (SameFold(x[|x| - 1], y[|y| - 1]) && NameLess(x[..|x| - 1], y[..|y| - 1])))
  {
    hide LabelLess, SameFold;
    if NameLess(x, y) {
      var k: nat :| FallsAt(x, y, k);
      if k > 0 {
        FallsFront(x, y, k);
        assert FallsAt(x[..|x| - 1], y[..|y| - 1], k - 1);
      }
    }
    if y != [] && (x == [] || LabelLess(x[|x| - 1], y[|y| - 1])) {
      assert FallsAt(x, y, 0);
    } else if y != [] && SameFold(x[|x| - 1], y[|y| - 1]) && NameLess(x[..|x| - 1], y[..|y| - 1]) {
      var k: nat :| FallsAt(x[..|x| - 1], y[..|y| - 1], k);
      FallsFront(x, y, k + 1);
      assert FallsAt(x, y, k + 1);
    }
  }

  lemma FallsFront(x: seq<Label>, y: seq<Label>, k: nat)
    requires x != [] && y != [] && k > 0
    ensures FallsAt(x, y, k) <==>
      SameFold(x[|x| - 1], y[|y| - 1]) && FallsAt(x[..|x| - 1], y[..|y| - 1], k - 1)
  {
    hide LabelLess, SameFold;
    var x', y' := x[..|x| - 1], y[..|y| - 1];
    assert forall j :: 0 <= j < |x'| ==> FromRight(x', j) == FromRight(x, j + 1);
    assert forall j :: 0 <= j < |y'| ==> FromRight(y', j) == FromRight(y, j + 1);
    assert FromRight(x, 0) == x[|x| - 1] && FromRight(y, 0) == y[|y| - 1];
    if FallsAt(x, y, k) {
      forall j | 0 <= j < k - 1 ensures SameFold(FromRight(x', j), FromRight(y', j)) {
        assert SameFold(FromRight(x, j + 1), FromRight(y, j + 1));
      }
    }
    if SameFold(x[|x| - 1], y[|y| - 1]) && FallsAt(x', y', k - 1) {
      forall j | 0 <= j < k ensures SameFold(FromRight(x, j), FromRight(y, j)) {
        if j > 0 {
          assert SameFold(FromRight(x', j - 1), FromRight(y', j - 1));
        }
      }
    }
  }

  // ----- It is a strict total order up to case -----

  lemma LabelTrichotomy(a: bytes, b: bytes) returns (i: nat)
    ensures i <= |a| && i <= |b| && AgreeUpto(a, b, i)
    ensures LabelLess(a, b) || LabelLess(b, a) || SameFold(a, b)
    ensures i == |a| == |b| || DropsAt(a, b, i) || DropsAt(b, a, i)
  {
    i := 0;
    while i < |a| && i < |b| && Lower(a[i]) == Lower(b[i])
      invariant 0 <= i <= |a| && i <= |b| && AgreeUpto(a, b, i)
    {
      i := i + 1;
    }
    assert i == |a| == |b| || DropsAt(a, b, i) || DropsAt(b, a, i);
  }

  lemma LabelLessTrans(a: bytes, b: bytes, c: bytes)
    requires LabelLess(a, b) && LabelLess(b, c)
    ensures LabelLess(a, c)
  {
    var i: nat :| DropsAt(a, b, i);
    var j: nat :| DropsAt(b, c, j);
    assert DropsAt(a, c, if i < j then i else j);
  }

  lemma LabelLessFold(a: bytes, a': bytes, b: bytes, b': bytes)
    requires LabelLess(a, b) && SameFold(a, a') && SameFold(b, b')
    ensures LabelLess(a', b')
  {
    var i: nat :| DropsAt(a, b, i);
    assert DropsAt(a', b', i);
  }

  lemma LabelLessIrreflexive(a: bytes, b: bytes)
    requires SameFold(a, b)
    ensures !LabelLess(a, b)
  {
  }

  lemma SomeOrder(x: seq<Label>, y: seq<Label>)
    ensures NameLess(x, y) || NameLess(y, x) || SameLabels(x, y)
  {
    var k: nat := 0;
    while k < |x| && k < |y| && SameFold(FromRight(x, k), FromRight(y, k))
      invariant 0 <= k <= |x| && k <= |y| && Agree(x, y, k)
    {
      k := k + 1;
    }
    if k < |x| && k < |y| {
      var i := LabelTrichotomy(FromRight(x, k), FromRight(y, k));
      assert FallsAt(x, y, k) || FallsAt(y, x, k);
    } else if k < |y| {
      assert FallsAt(x, y, k);
    } else if k < |x| {
      assert FallsAt(y, x, k);
    } else {
      forall i | 0 <= i < |x|
        ensures SameFold(x[i], y[i])
      {
        assert SameFold(FromRight(x, |x| - 1 - i), FromRight(y, |x| - 1 - i));
      }
    }
  }

  lemma NameLessTrans(x: seq<Label>, y: seq<Label>, z: seq<Label>)
    requires NameLess(x, y) && NameLess(y, z)
    ensures NameLess(x, z)
  {
    var i: nat :| FallsAt(x, y, i);
    var j: nat :| FallsAt(y, z, j);
    var k := if i < j then i else j;
    forall m | 0 <= m < k
      ensures SameFold(FromRight(x, m), FromRight(z, m))
    {
      assert SameFold(FromRight(x, m), FromRight(y, m)) && SameFold(FromRight(y, m), FromRight(z, m));
    }
    if k < |x| {
      var a, b, c := FromRight(x, k), FromRight(y, k), FromRight(z, k);
      if i < j {
        assert SameFold(b, c);
        LabelLessFold(a, a, b, c);
      } else if j < i {
        assert SameFold(b, a);
        LabelLessFold(b, a, c, c);
      } else {
        LabelLessTrans(a, b, c);
      }
    }
    assert FallsAt(x, z, k);
  }

  lemma NameLessIrreflexive(x: seq<Label>, y: seq<Label>)
    requires SameLabels(x, y)
    ensures !NameLess(x, y)
  {
    if k: nat :| FallsAt(x, y, k) {
      if k < |x| {
        assert SameFold(x[|x| - 1 - k], y[|x| - 1 - k]);
        LabelLessIrreflexive(FromRight(x, k), FromRight(y, k));
      }
    }
  }

  lemma NotBoth(x: seq<Label>, y: seq<Label>)
    requires NameLess(x, y)
    ensures !NameLess(y, x) && !SameLabels(x, y)
  {
    if NameLess(y, x) {
      NameLessTrans(x, y, x);
      SameAsItself(x);
      NameLessIrreflexive(x, x);
    }
    if SameLabels(x, y) {
      NameLessIrreflexive(x, y);
    }
  }

  lemma SameAsItself(x: seq<Label>)
    ensures SameLabels(x, x)
  {
    assert forall i :: 0 <= i < |x| ==> SameFold(x[i], x[i]);
  }

  /** Exactly one holds: less, greater, or equal up to case. */
  lemma NameTrichotomy(x: seq<Label>, y: seq<Label>)
    ensures NameLess(x, y) ==> !NameLess(y, x) && !SameLabels(x, y)
    ensures NameLess(y, x) ==> !NameLess(x, y) && !SameLabels(x, y)
    ensures !SameLabels(x, y) ==> NameLess(x, y) || NameLess(y, x)
  {
    hide NameLess;
    SomeOrder(x, y);
    if NameLess(x, y) {
      NotBoth(x, y);
    } else if NameLess(y, x) {
      NotBoth(y, x);
      SameEither(x, y);
    }
  }

  // ----- The comparison of the library -----

  datatype Relation = SuperDomain | SubDomain | Equal | CommonAncestor | NoRelation

  datatype Comparison = Comparison(order: int, commonLabelCount: nat, relation: Relation)

  /** `k` is the number of labels the names have in common on the right. */
  ghost predicate CommonCount(x: seq<Label>, y: seq<Label>, k: nat) {
    && k <= |x| && k <= |y| && Agree(x, y, k)
    && (k == |x| || k == |y| || !SameFold(FromRight(x, k), FromRight(y, k)))
  }

  /** What a comparison of `x` with `y` must say; the root label counts as common. */
  ghost predicate Compares(r: Comparison, x: seq<Label>, y: seq<Label>) {
    && (r.order < 0 <==> NameLess(x, y))
    && (r.order > 0 <==> NameLess(y, x))
    && (r.order == 0 <==> SameLabels(x, y))
    && r.commonLabelCount >= 1 && CommonCount(x, y, r.commonLabelCount - 1)
    && r.relation == (if r.commonLabelCount - 1 == |x| == |y| then Equal
                      else if r.commonLabelCount - 1 == |y| then SubDomain
                      else if r.commonLabelCount - 1 == |x| then SuperDomain
                      else CommonAncestor)
    && (r.relation == Equal <==> SameLabels(x, y))
  }

  /** The first label from the right that differs decides. */
  lemma Decided(x: seq<Label>, y: seq<Label>, k: nat, order: int)
    requires k < |x| && k < |y| && Agree(x, y, k) && order != 0
    requires if order < 0 then LabelLess(FromRight(x, k), FromRight(y, k))
      else LabelLess(FromRight(y, k), FromRight(x, k))
    ensures Compares(Comparison(order, k + 1, CommonAncestor), x, y)
  {
    if order < 0 {
      assert FallsAt(x, y, k);
      NotBoth(x, y);
      if SameFold(FromRight(x, k), FromRight(y, k)) {
        LabelLessIrreflexive(FromRight(x, k), FromRight(y, k));
      }
    } else {
      assert FallsAt(y, x, k);
      NotBoth(y, x);
      if SameFold(FromRight(y, k), FromRight(x, k)) {
        LabelLessIrreflexive(FromRight(y, k), FromRight(x, k));
      }
      SameEither(x, y);
    }
  }

  lemma SameEither(x: seq<Label>, y: seq<Label>)
    ensures SameLabels(x, y) == SameLabels(y, x)
  {
    if SameLabels(x, y) {
      assert forall i :: 0 <= i < |x| ==> SameFold(x[i], y[i]) && SameFold(y[i], x[i]);
    }
    if SameLabels(y, x) {
      assert forall i :: 0 <= i < |x| ==> SameFold(y[i], x[i]) && SameFold(x[i], y[i]);
    }
  }

  /** When the shorter name runs out, the lengths decide. */
  lemma RanOut(x: seq<Label>, y: seq<Label>, k: nat)
    requires k <= |x| && k <= |y| && Agree(x, y, k) && (k == |x| || k == |y|)
    ensures var relation := if |x| < |y| then SuperDomain else if |x| > |y| then SubDomain else Equal;
      Compares(Comparison(|x| - |y|, k + 1, relation), x, y)
  {
    if |x| < |y| {
      assert FallsAt(x, y, k);
      NotBoth(x, y);
    } else if |x| > |y| {
      assert FallsAt(y, x, k);
      NotBoth(y, x);
    } else {
      forall i | 0 <= i < |x|
        ensures SameFold(x[i], y[i])
      {
        assert SameFold(FromRight(x, |x| - 1 - i), FromRight(y, |x| - 1 - i));
      }
      SameEither(x, y);
      NameLessIrreflexive(x, y);
      NameLessIrreflexive(y, x);
    }
  }

  /** Table entry `m` from the right holds the root label or label `m - 1` from the right. */
  ghost function EntryLabel(ls: seq<Label>, m: nat): bytes
    requires m <= |ls|
  {
    if m == 0 then [] else FromRight(ls, m - 1)
  }

  lemma EntryOctets(n: Name, m: nat)
    requires Valid(n) && m < |n.offsets|
    ensures var o, l := n.offsets[|n.offsets| - 1 - m] as nat, EntryLabel(Labels(n), m);
            o < |n.raw| && n.raw[o] == |l| && o + 1 + |l| <= |n.raw| && n.raw[o + 1..o + 1 + |l|] == l
  {
    hide Body, Wire;
    var ls := Labels(n);
    if m == 0 {
      ExactTable(n);
    } else {
      LabelAt(ls, |ls| - m);
    }
  }

  /** Compares the two labels whose length octets are at `o1` and `o2`. */
  method CompareLabels(n1: Name, n2: Name, o1: nat, o2: nat, ghost a: bytes, ghost b: bytes) returns (diff: int)
    requires o1 < |n1.raw| && n1.raw[o1] == |a| && o1 + 1 + |a| <= |n1.raw| && n1.raw[o1 + 1..o1 + 1 + |a|] == a
    requires o2 < |n2.raw| && n2.raw[o2] == |b| && o2 + 1 + |b| <= |n2.raw| && n2.raw[o2 + 1..o2 + 1 + |b|] == b
    ensures diff == 0 ==> SameFold(a, b)
    ensures diff < 0 ==> LabelLess(a, b)
    ensures diff > 0 ==> LabelLess(b, a)
  {
    var c1, c2 := n1.raw[o1], n2.raw[o2];
    var mincount := if c1 < c2 then c1 else c2;
    for i := 0 to mincount
      invariant AgreeUpto(a, b, i)
    {
      var x, y := n1.raw[o1 + 1 + i], n2.raw[o2 + 1 + i];
      assert x == n1.raw[o1 + 1..o1 + 1 + |a|][i] && y == n2.raw[o2 + 1..o2 + 1 + |b|][i];
      diff := Lower(x) as int - Lower(y) as int;
      if diff != 0 {
        assert DropsAt(a, b, i) || DropsAt(b, a, i);
        return;
      }
    }
    diff := c1 as int - c2 as int;
    assert diff < 0 ==> DropsAt(a, b, mincount);
    assert diff > 0 ==> DropsAt(b, a, mincount);
  }

  method Compare(n1: Name, n2: Name) returns (r: Comparison)
    requires Valid(n1) && Valid(n2)
    ensures Compares(r, Labels(n1), Labels(n2))
  {
    hide Compares, LabelLess, SameFold, FromLabels, Valid, Body, FitsName;
    ghost var x, y := Labels(n1), Labels(n2);
    var l1, l2 := |n1.offsets|, |n2.offsets|;
    var ldiff := l1 - l2;
    var minl := if l1 < l2 then l1 else l2;
    var nlabels: nat := 0;
    while minl > 0
      invariant 0 <= minl <= l1 && minl <= l2 && (minl == l1 || minl == l2)
      invariant l1 + nlabels == |x| + 1 && l2 + nlabels == |y| + 1
      invariant nlabels > 0 ==> Agree(x, y, nlabels - 1)
      decreases minl
    {
      minl, l1, l2 := minl - 1, l1 - 1, l2 - 1;
      EntryOctets(n1, nlabels);
      EntryOctets(n2, nlabels);
      var diff := CompareLabels(n1, n2, n1.offsets[l1], n2.offsets[l2], EntryLabel(x, nlabels), EntryLabel(y, nlabels));
      if diff != 0 {
        NoneBelowEmpty();
        Decided(x, y, nlabels - 1, diff);
        return Comparison(diff, nlabels, if nlabels == 0 then NoRelation else CommonAncestor);
      }
      nlabels := nlabels + 1;
    }
    RanOut(x, y, nlabels - 1);
    r := Comparison(ldiff, nlabels, if ldiff < 0 then SuperDomain else if ldiff > 0 then SubDomain else Equal);
  }

  lemma NoneBelowEmpty()
    ensures !LabelLess([], [])
  {
  }

  lemma SameMeansSameFold(n1: Name, n2: Name)
    requires Valid(n1) && Valid(n2)
    ensures SameName(n1, n2) <==> SameFold(n1.raw, n2.raw)
    ensures SameName(n1, n2) ==> |n1.offsets| == |n2.offsets|
  {
    if SameLabels(Labels(n1), Labels(n2)) {
      SameLabelsSameWire(Labels(n1), Labels(n2));
    }
    if SameFold(n1.raw, n2.raw) {
      SameWireSameLabels(Labels(n1), Labels(n2));
    }
  }

  /** Equality up to case, label by label over both encodings at once. */
  method Equals(n1: Name, n2: Name) returns (same: bool)
    requires Valid(n1) && Valid(n2)
    ensures same == SameName(n1, n2)
  {
    hide Valid, FromLabels, FitsName, SameName;
    SameMeansSameFold(n1, n2);
    if |n1.raw| != |n2.raw| || |n1.offsets| != |n2.offsets| {
      return false;
    }
    ExactTable(n1);
    var pos: nat := 0;
    for l := 0 to |n1.offsets|
      invariant if l < |n1.offsets| then pos == n1.offsets[l] < |n1.raw| else pos == |n1.raw|
      invariant forall i :: 0 <= i < pos ==> Lower(n1.raw[i]) == Lower(n2.raw[i])
    {
      var count := n1.raw[pos];
      if count != n2.raw[pos] {
        return false;
      }
      pos := pos + 1;
      ghost var start := pos;
      assert l < |n1.offsets| - 1 ==> n1.offsets[l + 1] == Next(n1, l);
      while count > 0
        invariant 0 <= count && pos == start + n1.raw[start - 1] - count <= |n1.raw|
        invariant start + n1.raw[start - 1] <= |n1.raw|
        invariant forall i :: 0 <= i < pos ==> Lower(n1.raw[i]) == Lower(n2.raw[i])
      {
        if Lower(n1.raw[pos]) != Lower(n2.raw[pos]) {
          return false;
        }
        count, pos := count - 1, pos + 1;
      }
    }
    same := true;
  }

  /**
    * Names equal up to case compare as equal, by either routine, and hash alike.
    */
  lemma EqualNamesAgree(n1: Name, n2: Name, r: Comparison)
    requires Valid(n1) && Valid(n2) && Compares(r, Labels(n1), Labels(n2))
    ensures r.relation == Equal <==> SameName(n1, n2)
    ensures SameName(n1, n2) ==> Hash(n1.raw) == Hash(n2.raw)
  {
    if SameName(n1, n2) {
      SameMeansSameFold(n1, n2);
      SameFoldSameHash(n1.raw, n2.raw);
    }
  }
}
