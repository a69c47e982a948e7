/**
  * What a tree of levels stores: every node stands for the labels of its own name, put in
  * front of the labels of the nodes that hold its level.
  */
module Zones {
  import opened Octets
  import opened Names
  import opened NameOrder
  import opened Trees
  import opened RedBlack

  datatype Item = Item(full: seq<Label>, nd: Node, data: Data)

  ghost function NameOf(e: Info): seq<Label> {
    if Valid(e.name) then Labels(e.name) else []
  }

  // ----- The stored names in order -----

  /** All nodes below `s`: a level from left to right, each node before the level that it holds. */
  ghost function Flat(t: Tree, s: seq<Label>): seq<Item> {
    match t
    case Leaf => []
    case N(e, _, l, r, d) => Flat(l, s) + ([Item(NameOf(e) + s, e.nd, e.data)] + Flat(d, NameOf(e) + s)) + Flat(r, s)
  }

  ghost function FlatOne(x: Entry, s: seq<Label>): seq<Item> {
    [Item(NameOf(x.e) + s, x.e.nd, x.e.data)] + Flat(x.d, NameOf(x.e) + s)
  }

  ghost function FlatSeq(es: seq<Entry>, s: seq<Label>): seq<Item> {
    if es == [] then [] else FlatOne(es[0], s) + FlatSeq(es[1..], s)
  }

  lemma {:induction false} FlatSeqConcat(a: seq<Entry>, b: seq<Entry>, s: seq<Label>)
    ensures FlatSeq(a + b, s) == FlatSeq(a, s) + FlatSeq(b, s)
  {
    if a == [] {
      assert a + b == b;
    } else {
      assert (a + b)[1..] == a[1..] + b;
      FlatSeqConcat(a[1..], b, s);
    }
  }

  lemma FlatSeqOne(x: Entry, s: seq<Label>)
    ensures FlatSeq([x], s) == FlatOne(x, s)
  {
  }

  /** What a level stores depends on its nodes in order, not on how they are linked. */
  lemma {:induction false} FlatOfEntries(t: Tree, s: seq<Label>)
    ensures Flat(t, s) == FlatSeq(Entries(t), s)
    decreases t
  {
    if t.N? {
      FlatOfEntries(t.l, s);
      FlatOfEntries(t.r, s);
      var x := Entry(t.e, t.d);
      FlatSeqOne(x, s);
      FlatSeqConcat(Entries(t.l) + [x], Entries(t.r), s);
      FlatSeqConcat(Entries(t.l), [x], s);
    }
  }

  // ----- Well-formed levels -----

  /** The label that a node of a level is found by: the rightmost of its own. */
  ghost function Key(e: Info): bytes {
    if NameOf(e) == [] then [] else FromRight(NameOf(e), 0)
  }

  ghost predicate Sorted(es: seq<Entry>) {
    forall i, j :: 0 <= i < j < |es| ==> LabelLess(Key(es[i].e), Key(es[j].e))
  }

  /** The nodes of a level below `s` have names, and hold well-formed levels. */
  ghost predicate Good(t: Tree, s: seq<Label>)
    decreases t, 0
  {
    match t
    case Leaf => true
    case N(e, _, l, r, d) => Good(l, s) && Good(r, s) && GoodNode(e, d, s)
  }

  ghost predicate GoodNode(e: Info, d: Tree, s: seq<Label>)
    decreases d, 2
  {
    && Valid(e.name) && Labels(e.name) != [] && FitsName(Labels(e.name) + s)
    && Level(d, Labels(e.name) + s)
  }

  ghost predicate Level(t: Tree, s: seq<Label>)
    decreases t, 1
  {
    Balanced(t) && Sorted(Entries(t)) && Good(t, s)
  }

  /** The top level holds at most one node, which may be the root name. */
  ghost predicate Zone(t: Tree) {
    t.N? ==> Valid(t.e.name) && t.c == Black && t.l.Leaf? && t.r.Leaf? && Level(t.d, Labels(t.e.name))
  }

  lemma {:induction false} GoodEntries(t: Tree, s: seq<Label>)
    ensures Good(t, s) <==> forall i :: 0 <= i < |Entries(t)| ==> GoodNode(Entries(t)[i].e, Entries(t)[i].d, s)
    decreases t
  {
    hide GoodNode, Entries;
    if t.N? {
      GoodEntries(t.l, s);
      GoodEntries(t.r, s);
      EntryOwn(t);
      var n, es, l, r := |Entries(t.l)|, Entries(t), Entries(t.l), Entries(t.r);
      if Good(t, s) {
        forall i | 0 <= i < |es|
          ensures GoodNode(es[i].e, es[i].d, s)
        {
          if i < n {
            EntryLeft(t, i);
          } else if i > n {
            EntryRight(t, i - n - 1);
          }
        }
      } else if forall i :: 0 <= i < |es| ==> GoodNode(es[i].e, es[i].d, s) {
        forall i | 0 <= i < n
          ensures GoodNode(l[i].e, l[i].d, s)
        {
          EntryLeft(t, i);
        }
        forall i | 0 <= i < |r|
          ensures GoodNode(r[i].e, r[i].d, s)
        {
          EntryRight(t, i);
        }
      }
    } else {
      EntriesLeaf();
    }
  }

  lemma EntriesLeaf()
    ensures Entries(Leaf) == []
  {
  }

  // ----- The order of the stored names -----

  ghost predicate EndsWith(x: seq<Label>, s: seq<Label>) {
    |x| >= |s| && x[|x| - |s|..] == s
  }

  /** A name below `s` whose next label is `key`. */
  ghost predicate Under(x: seq<Label>, s: seq<Label>, key: bytes) {
    |x| > |s| && EndsWith(x, s) && FromRight(x, |s|) == key
  }

  ghost predicate SortedItems(xs: seq<Item>) {
    forall i, j :: 0 <= i < j < |xs| ==> NameLess(xs[i].full, xs[j].full)
  }

  lemma UnderOwn(n: seq<Label>, s: seq<Label>)
    requires n != []
    ensures Under(n + s, s, FromRight(n, 0))
  {
    assert (n + s)[|n|..] == s;
  }

  lemma UnderFurther(x: seq<Label>, n: seq<Label>, s: seq<Label>, key: bytes)
    requires n != [] && Under(x, n + s, key)
    ensures Under(x, s, FromRight(n, 0))
  {
    assert x[|x| - |s|..] == x[|x| - |n + s|..][|n|..] == (n + s)[|n|..] == s;
    assert x[|x| - 1 - |s|] == x[|x| - |n + s|..][|n| - 1] == (n + s)[|n| - 1];
  }

  /** Each stored name is found below the key of its node in the level. */
  lemma {:induction false} FlatUnder(t: Tree, s: seq<Label>, i: nat) returns (j: nat)
    requires Good(t, s) && i < |Flat(t, s)|
    ensures j < |Entries(t)| && Under(Flat(t, s)[i].full, s, Key(Entries(t)[j].e))
    decreases t
  {
    hide *;
    FlatGood(t, s);
    EntryOwn(t);
    var a, o, b, m := Flat(t.l, s), FlatOne(Entry(t.e, t.d), s), Flat(t.r, s), |Entries(t.l)|;
    if i < |a| {
      j := FlatUnder(t.l, s, i);
      EntryLeft(t, j);
    } else if i < |a| + |o| {
      OwnUnder(t, s, i - |a|);
      j := m;
    } else {
      var j' := FlatUnder(t.r, s, i - |a| - |o|);
      EntryRight(t, j');
      j := m + 1 + j';
    }
  }

  lemma FlatGood(t: Tree, s: seq<Label>)
    requires Good(t, s) && Flat(t, s) != []
    ensures t.N? && Good(t.l, s) && Good(t.r, s) && GoodNode(t.e, t.d, s)
    ensures Flat(t, s) == Flat(t.l, s) + FlatOne(Entry(t.e, t.d), s) + Flat(t.r, s)
  {
    hide GoodNode;
  }

  lemma EntryOwn(t: Tree)
    requires t.N?
    ensures |Entries(t)| == |Entries(t.l)| + 1 + |Entries(t.r)| && Entries(t)[|Entries(t.l)|] == Entry(t.e, t.d)
  {
  }

  lemma EntryLeft(t: Tree, j: nat)
    requires t.N? && j < |Entries(t.l)|
    ensures j < |Entries(t)| && Entries(t)[j] == Entries(t.l)[j]
  {
  }

  lemma EntryRight(t: Tree, j: nat)
    requires t.N? && j < |Entries(t.r)|
    ensures |Entries(t.l)| + 1 + j < |Entries(t)| && Entries(t)[|Entries(t.l)| + 1 + j] == Entries(t.r)[j]
  {
  }

  lemma LevelGood(t: Tree, s: seq<Label>)
    requires Level(t, s)
    ensures Good(t, s) && Sorted(Entries(t)) && Balanced(t)
  {
  }

  lemma UnderLess(x: seq<Label>, y: seq<Label>, s: seq<Label>, a: bytes, b: bytes)
    requires Under(x, s, a) && Under(y, s, b) && LabelLess(a, b)
    ensures NameLess(x, y)
  {
    SameEnd(x, y, s);
    assert FallsAt(x, y, |s|);
  }

  lemma SameEnd(x: seq<Label>, y: seq<Label>, s: seq<Label>)
    requires EndsWith(x, s) && EndsWith(y, s)
    ensures Agree(x, y, |s|)
  {
    forall j | 0 <= j < |s|
      ensures FromRight(x, j) == FromRight(y, j)
    {
      assert x[|x| - 1 - j] == x[|x| - |s|..][|s| - 1 - j] == y[|y| - |s|..][|s| - 1 - j] == y[|y| - 1 - j];
    }
  }

  lemma BelowLater(x: seq<Label>, s: seq<Label>, key: bytes)
    requires Under(x, s, key)
    ensures NameLess(s, x)
  {
    assert EndsWith(s, s);
    SameEnd(s, x, s);
    assert FallsAt(s, x, |s|);
  }

  lemma SortedParts(t: Tree)
    requires t.N? && Sorted(Entries(t))
    ensures Sorted(Entries(t.l)) && Sorted(Entries(t.r))
    ensures forall i :: 0 <= i < |Entries(t.l)| ==> LabelLess(Key(Entries(t.l)[i].e), Key(t.e))
    ensures forall j :: 0 <= j < |Entries(t.r)| ==> LabelLess(Key(t.e), Key(Entries(t.r)[j].e))
    ensures forall i, j :: 0 <= i < |Entries(t.l)| && 0 <= j < |Entries(t.r)| ==>
      LabelLess(Key(Entries(t.l)[i].e), Key(Entries(t.r)[j].e))
  {
    hide LabelLess, Key, Entries;
    EntryOwn(t);
    var es, n, l, r := Entries(t), |Entries(t.l)|, Entries(t.l), Entries(t.r);
    forall i | 0 <= i < |l|
      ensures LabelLess(Key(l[i].e), Key(t.e))
    {
      EntryLeft(t, i);
    }
    forall j | 0 <= j < |r|
      ensures LabelLess(Key(t.e), Key(r[j].e))
    {
      EntryRight(t, j);
    }
    forall i, j | 0 <= i < |l| && 0 <= j < |r|
      ensures LabelLess(Key(l[i].e), Key(r[j].e))
    {
      EntryLeft(t, i);
      EntryRight(t, j);
    }
    forall i, j | 0 <= i < j < |l|
      ensures LabelLess(Key(l[i].e), Key(l[j].e))
    {
      EntryLeft(t, i);
      EntryLeft(t, j);
    }
    forall i, j | 0 <= i < j < |r|
      ensures LabelLess(Key(r[i].e), Key(r[j].e))
    {
      EntryRight(t, i);
      EntryRight(t, j);
    }
  }

  lemma SortedJoin(a: seq<Item>, b: seq<Item>)
    requires SortedItems(a) && SortedItems(b)
    requires forall i, j :: 0 <= i < |a| && 0 <= j < |b| ==> NameLess(a[i].full, b[j].full)
    ensures SortedItems(a + b)
  {
    hide NameLess;
  }

  /** The traversal order of a level is the canonical order of the names. */
  lemma {:induction false} FlatSorted(t: Tree, s: seq<Label>)
    requires Good(t, s) && Sorted(Entries(t))
    ensures SortedItems(Flat(t, s))
    decreases t
  {
    hide Level, NameLess, LabelLess, Under, Sorted, Key;
    if t.N? {
      var n := NameOf(t.e);
      var a, o, b := Flat(t.l, s), FlatOne(Entry(t.e, t.d), s), Flat(t.r, s);
      SortedParts(t);
      FlatSorted(t.l, s);
      FlatSorted(t.r, s);
      OwnSorted(t, s);
      forall i, j | 0 <= i < |a| && 0 <= j < |o|
        ensures NameLess(a[i].full, o[j].full)
      {
        var i' := FlatUnder(t.l, s, i);
        OwnUnder(t, s, j);
        UnderLess(a[i].full, o[j].full, s, Key(Entries(t.l)[i'].e), Key(t.e));
      }
      SortedJoin(a, o);
      forall i, j | 0 <= i < |a + o| && 0 <= j < |b|
        ensures NameLess((a + o)[i].full, b[j].full)
      {
        var j' := FlatUnder(t.r, s, j);
        if i < |a| {
          var i' := FlatUnder(t.l, s, i);
          UnderLess(a[i].full, b[j].full, s, Key(Entries(t.l)[i'].e), Key(Entries(t.r)[j'].e));
        } else {
          OwnUnder(t, s, i - |a|);
          UnderLess(o[i - |a|].full, b[j].full, s, Key(t.e), Key(Entries(t.r)[j'].e));
        }
      }
      SortedJoin(a + o, b);
    }
  }

  lemma OwnUnder(t: Tree, s: seq<Label>, j: nat)
    requires t.N? && GoodNode(t.e, t.d, s) && j < |FlatOne(Entry(t.e, t.d), s)|
    ensures Under(FlatOne(Entry(t.e, t.d), s)[j].full, s, Key(t.e))
    decreases t, 0
  {
    hide Under, Level;
    var n := NameOf(t.e);
    if j == 0 {
      UnderOwn(n, s);
    } else {
      LevelGood(t.d, n + s);
      var j' := FlatUnder(t.d, n + s, j - 1);
      UnderFurther(Flat(t.d, n + s)[j - 1].full, n, s, Key(Entries(t.d)[j'].e));
    }
  }

  lemma OwnSorted(t: Tree, s: seq<Label>)
    requires t.N? && GoodNode(t.e, t.d, s)
    ensures SortedItems(FlatOne(Entry(t.e, t.d), s))
    decreases t, 0
  {
    hide NameLess, Under, Level;
    var n := NameOf(t.e) + s;
    LevelGood(t.d, n);
    FlatSorted(t.d, n);
    var a, b := [Item(n, t.e.nd, t.e.data)], Flat(t.d, n);
    forall i, j | 0 <= i < |a| && 0 <= j < |b|
      ensures NameLess(a[i].full, b[j].full)
    {
      var j' := FlatUnder(t.d, n, j);
      BelowLater(b[j].full, n, Key(Entries(t.d)[j'].e));
    }
    SortedJoin(a, b);
  }

  // ----- A place in the tree -----

  /** The labels of the nodes that hold the level of the hole. */
  ghost function Suffix(k: Way): seq<Label> {
    match k
    case Top => []
    case InD(e, _, _, _, up) => NameOf(e) + Suffix(up)
    case _ => Suffix(k.up)
  }

  /** The whole tree with `t` in the hole. */
  ghost function All(k: Way, t: Tree): Tree
    decreases k
  {
    if k.Top? then t else All(k.up, Fill(k, t))
  }

  ghost function FlatBefore(k: Way): seq<Item> {
    match k
    case Top => []
    case InL(_, _, _, _, up) => FlatBefore(up)
    case InR(e, _, l, d, up) => FlatBefore(up) + Flat(l, Suffix(up)) + FlatOne(Entry(e, d), Suffix(up))
    case InD(e, _, l, _, up) => FlatBefore(up) + Flat(l, Suffix(up)) + [Item(NameOf(e) + Suffix(up), e.nd, e.data)]
  }

  ghost function FlatAfter(k: Way): seq<Item> {
    match k
    case Top => []
    case InL(e, _, r, d, up) => FlatOne(Entry(e, d), Suffix(up)) + Flat(r, Suffix(up)) + FlatAfter(up)
    case InR(_, _, _, _, up) => FlatAfter(up)
    case InD(_, _, _, r, up) => Flat(r, Suffix(up)) + FlatAfter(up)
  }

  ghost function FlatHere(k: Way, t: Tree): seq<Item> {
    FlatBefore(k) + Flat(t, Suffix(k)) + FlatAfter(k)
  }

  lemma FlatUp(k: Way, t: Tree)
    requires !k.Top?
    ensures FlatHere(k, t) == FlatHere(k.up, Fill(k, t))
  {
    var s := Suffix(k.up);
    match k {
      case InL(e, _, r, d, up) =>
        Seq5(FlatBefore(up), Flat(t, s), FlatOne(Entry(e, d), s), Flat(r, s), FlatAfter(up));
      case InR(e, _, l, d, up) =>
        Seq5(FlatBefore(up), Flat(l, s), FlatOne(Entry(e, d), s), Flat(t, s), FlatAfter(up));
      case InD(e, _, l, r, up) =>
        Seq6(FlatBefore(up), Flat(l, s), [Item(NameOf(e) + s, e.nd, e.data)], Flat(t, NameOf(e) + s), Flat(r, s),
          FlatAfter(up));
    }
  }

  lemma Seq5(a: seq<Item>, b: seq<Item>, c: seq<Item>, d: seq<Item>, e: seq<Item>)
    ensures a + b + (c + d + e) == a + (b + c + d) + e
    ensures a + b + c + d + e == a + (b + c + d) + e
  {
  }

  lemma Seq6(a: seq<Item>, b: seq<Item>, c: seq<Item>, d: seq<Item>, e: seq<Item>, f: seq<Item>)
    ensures a + b + c + d + (e + f) == a + (b + (c + d) + e) + f
  {
  }

  lemma {:induction false} FlatWhole(k: Way, t: Tree)
    ensures Flat(All(k, t), []) == FlatHere(k, t)
    decreases k
  {
    if !k.Top? {
      FlatUp(k, t);
      FlatWhole(k.up, Fill(k, t));
    }
  }

  lemma {:induction false} ConfWhole(h: Heap, k: Way, t: Tree)
    requires Conf(h, k, t)
    ensures Conf(h, Top, All(k, t))
    decreases k
  {
    hide Conf;
    if !k.Top? {
      ConfUp(h, k, t);
      ConfWhole(h, k.up, Fill(k, t));
    }
  }

  lemma {:induction false} AllClosed(k: Way, t: Tree)
    ensures All(k, t) == All(Base(k), Closed(k, t)) && Suffix(Base(k)) == Suffix(k)
    decreases k
  {
    if k.InL? || k.InR? {
      AllClosed(k.up, Fill(k, t));
    }
  }

  // ----- Levels and nodes of a well-formed tree -----

  lemma {:induction false} ClosedGood(k: Way, t: Tree, s: seq<Label>)
    requires Good(Closed(k, t), s)
    ensures Good(t, s)
    decreases k
  {
    if k.InL? || k.InR? {
      ClosedGood(k.up, Fill(k, t), s);
    }
  }

  /** Every level of a well-formed tree is well formed. */
  lemma {:induction false} ZoneLevel(k: Way, t: Tree)
    requires Zone(All(k, t)) && k.InD?
    ensures Level(t, Suffix(k)) && Valid(k.e.name)
    decreases Depth(k)
  {
    hide Level;
    var p := Fill(k, t);
    AllClosed(k.up, p);
    var b := Base(k.up);
    if b.InD? {
      ZoneLevel(b, Closed(k.up, p));
      LevelGood(Closed(k.up, p), Suffix(b));
      ClosedGood(k.up, p, Suffix(b));
    } else {
      TopAlone(k.up, p);
      assert Labels(k.e.name) + [] == Labels(k.e.name);
    }
  }

  lemma TopAlone(k: Way, t: Tree)
    requires t.N? && Base(k).Top? && Zone(Closed(k, t))
    ensures k.Top?
  {
    var c := Closed(k, t);
    ClosedEntries(k, t);
    assert |Entries(c)| <= 1;
    assert |Entries(t)| >= 1;
    assert k.InL? || k.InR? ==> |Whole(k, t)| >= 2;
  }

  lemma ZoneNode(k: Way, t: Tree)
    requires Zone(All(k, t)) && t.N?
    ensures Valid(t.e.name) && Level(t.d, NameOf(t.e) + Suffix(k))
    ensures Base(k).InD? ==> Good(t, Suffix(k)) && Sorted(Whole(k, t))
    ensures Base(k).Top? ==> k.Top? && t.l.Leaf? && t.r.Leaf?
  {
    hide Level;
    AllClosed(k, t);
    if Base(k).InD? {
      ZoneLevel(Base(k), Closed(k, t));
      LevelGood(Closed(k, t), Suffix(k));
      ClosedGood(k, t, Suffix(k));
      ClosedEntries(k, t);
    } else {
      TopAlone(k, t);
      assert Labels(t.e.name) + [] == Labels(t.e.name);
    }
  }

  // ----- Changes that keep the tree well formed -----

  /** The same level, but for what its nodes store and hold. */
  ghost predicate Twin(t: Tree, t': Tree) {
    match t
    case Leaf => t'.Leaf?
    case N(e, c, l, r, _) => t'.N? && t'.c == c && SameFold(Key(e), Key(t'.e)) && Twin(l, t'.l) && Twin(r, t'.r)
  }

  lemma {:induction false} TwinSelf(t: Tree)
    ensures Twin(t, t)
  {
    if t.N? {
      TwinSelf(t.l);
      TwinSelf(t.r);
    }
  }

  lemma {:induction false} TwinColors(t: Tree, t': Tree)
    requires Twin(t, t')
    ensures Col(t) == Col(t') && Calm(t) == Calm(t')
    ensures forall n: nat :: Even(t, n) == Even(t', n)
    decreases t
  {
    if t.N? {
      TwinColors(t.l, t'.l);
      TwinColors(t.r, t'.r);
    }
  }

  lemma {:induction false} TwinKeys(t: Tree, t': Tree)
    requires Twin(t, t')
    ensures |Entries(t)| == |Entries(t')|
    ensures forall i :: 0 <= i < |Entries(t)| ==> SameFold(Key(Entries(t)[i].e), Key(Entries(t')[i].e))
    decreases t
  {
    hide SameFold, Key;
    if t.N? {
      TwinKeys(t.l, t'.l);
      TwinKeys(t.r, t'.r);
    }
  }

  lemma TwinLevel(t: Tree, t': Tree)
    requires Twin(t, t') && Balanced(t) && Sorted(Entries(t))
    ensures Balanced(t') && Sorted(Entries(t'))
  {
    hide Even, Calm, Twin, Entries, Key;
    TwinColors(t, t');
    TwinKeys(t, t');
    var es, es' := Entries(t), Entries(t');
    forall i, j | 0 <= i < j < |es'|
      ensures LabelLess(Key(es'[i].e), Key(es'[j].e))
    {
      LabelLessFold(Key(es[i].e), Key(es'[i].e), Key(es[j].e), Key(es'[j].e));
    }
  }

  lemma TwinLevelOf(t: Tree, t': Tree, s: seq<Label>)
    requires Twin(t, t') && Level(t, s) && Good(t', s)
    ensures Level(t', s)
  {
    TwinLevel(t, t');
  }

  /** The parent of a twin is a twin of the parent. */
  lemma ZoneSide(k: Way, t: Tree, t': Tree)
    requires Zone(All(k, t)) && Twin(t, t') && t.N? && (k.InL? || k.InR?) && Good(t', Suffix(k))
    ensures Twin(Fill(k, t), Fill(k, t')) && Good(Fill(k, t'), Suffix(k.up)) && Base(k.up).InD?
  {
    hide Level, Zone;
    ZoneNode(k, t);
    ZoneNode(k.up, Fill(k, t));
    TwinSelf(if k.InL? then k.r else k.l);
  }

  /** A subtree may be replaced by a twin of it. */
  lemma {:induction false} Replace(k: Way, t: Tree, t': Tree)
    requires Zone(All(k, t)) && Twin(t, t') && t.N?
    requires if Base(k).InD? then Good(t', Suffix(k)) else Zone(t')
    ensures Zone(All(k, t'))
    decreases k
  {
    ZoneNode(k, t);
    if !k.Top? {
      hide Level, Zone, Good, Twin;
      if k.InD? {
        ZoneLevel(k, t);
        TwinLevelOf(t, t', Suffix(k));
        ZoneUp(k, t, t');
      } else {
        ZoneSide(k, t, t');
      }
      Replace(k.up, Fill(k, t), Fill(k, t'));
    }
  }

  /** The node that holds a level stays well formed with another well-formed level. */
  lemma ZoneUp(k: Way, t: Tree, t': Tree)
    requires Zone(All(k, t)) && k.InD? && Level(t', Suffix(k))
    ensures Twin(Fill(k, t), Fill(k, t'))
    ensures if Base(k.up).InD? then Good(Fill(k, t'), Suffix(k.up)) else Zone(Fill(k, t'))
  {
    hide Level;
    TwinSelf(k.l);
    TwinSelf(k.r);
    ZoneNode(k.up, Fill(k, t));
    AllClosed(k.up, Fill(k, t));
    assert Labels(k.e.name) + [] == Labels(k.e.name);
  }

  /** A level may be replaced by any well-formed level. */
  lemma ReplaceLevel(k: Way, t: Tree, t': Tree)
    requires Zone(All(k, t)) && k.InD? && Level(t', Suffix(k))
    ensures Zone(All(k, t'))
  {
    hide Level, Twin, Good, Zone;
    ZoneUp(k, t, t');
    Replace(k.up, Fill(k, t), Fill(k, t'));
  }
}
