/** `Remove` of `g53/domaintree/domaintree.go`. */
module TreeRemove {
  import opened Octets
  import opened Names
  import opened NameOrder
  import opened Trees
  import opened RedBlack
  import opened InsertBalance
  import opened RemoveBalance
  import opened Unlinking
  import opened Zones
  import opened ZoneContents
  import opened TreeSearch
  import opened TreeInsert
  import opened TreeMap

  // ----- A level without one of its nodes -----

  lemma {:induction false} MendedIn(k: Way, t: Tree, n: nat) returns (m: nat)
    requires Mended(Base(k), Closed(k, t), n)
    ensures Mended(k, t, m)
    decreases k
  {
    hide Mended;
    m := n;
    if k.InL? || k.InR? {
      m := MendedIn(k.up, Fill(k, t), n);
      MendedBelow(k.up, Fill(k, t), m);
      m := m - Weight(k.c);
    }
  }

  /** Every place of a well-formed tree is in a balanced level. */
  lemma MendedAt(k: Way, t: Tree) returns (n: nat)
    requires Zone(All(k, t)) && t.N?
    ensures Mended(k, t, n)
  {
    hide Mended, Level, Zone;
    AllClosed(k, t);
    ZoneNode(k, t);
    if Base(k).InD? {
      ZoneLevel(Base(k), Closed(k, t));
      var m := LevelMended(Base(k), Closed(k, t), Suffix(k));
      n := MendedIn(k, t, m);
    } else {
      n := TopMended(t);
    }
  }

  lemma TopMended(t: Tree) returns (n: nat)
    requires Zone(t) && t.N?
    ensures Mended(Top, t, n)
  {
    n := 1;
    assert Even(Leaf, 0) && Calm(Leaf);
  }

  lemma SortedWithout(a: seq<Entry>, x: Entry, b: seq<Entry>)
    requires Sorted(a + [x] + b)
    ensures Sorted(a + b)
  {
    hide LabelLess, Key;
    var es, ds := a + [x] + b, a + b;
    forall i, j | 0 <= i < j < |ds|
      ensures LabelLess(Key(ds[i].e), Key(ds[j].e))
    {
      var i', j' := if i < |a| then i else i + 1, if j < |a| then j else j + 1;
      assert ds[i] == es[i'] && ds[j] == es[j'];
    }
  }

  lemma GoodWithout(a: seq<Entry>, x: Entry, b: seq<Entry>, s: seq<Label>)
    requires forall i :: 0 <= i < |a + [x] + b| ==> GoodNode((a + [x] + b)[i].e, (a + [x] + b)[i].d, s)
    ensures forall i :: 0 <= i < |a + b| ==> GoodNode((a + b)[i].e, (a + b)[i].d, s)
  {
    hide GoodNode;
    var es, ds := a + [x] + b, a + b;
    forall i | 0 <= i < |ds|
      ensures GoodNode(ds[i].e, ds[i].d, s)
    {
      assert ds[i] == es[if i < |a| then i else i + 1];
    }
  }

  /** The level of the hole, around the node in it. */
  lemma WholeAround(k: Way, t: Tree)
    requires t.N?
    ensures Whole(k, t) == (Before(k) + Entries(t.l)) + [Entry(t.e, t.d)] + (Entries(t.r) + After(k))
  {
  }

  /** A level that has lost one node is well formed still. */
  lemma RemovedLevel(k: Way, t: Tree, t': Tree)
    requires Zone(All(k, t)) && t.N? && Balanced(t')
    requires Entries(t') == Before(k) + Entries(t.l) + Entries(t.r) + After(k)
    ensures Zone(All(Base(k), t'))
  {
    hide *;
    var a, x, b, s, c := Before(k) + Entries(t.l), Entry(t.e, t.d), Entries(t.r) + After(k), Suffix(k), Closed(k, t);
    AllClosed(k, t);
    ZoneNode(k, t);
    WholeAround(k, t);
    EntryAssoc(Before(k), Entries(t.l), Entries(t.r), After(k));
    if Base(k).InD? {
      ClosedEntries(k, t);
      ZoneLevel(Base(k), c);
      LevelGood(c, s);
      SortedWithout(a, x, b);
      GoodEntries(c, s);
      GoodWithout(a, x, b, s);
      GoodEntries(t', s);
      LevelMake(t', s);
      ReplaceLevel(Base(k), c, t');
    } else {
      TopGone(t, t');
    }
  }

  lemma EntryAssoc(a: seq<Entry>, b: seq<Entry>, c: seq<Entry>, d: seq<Entry>)
    ensures a + b + c + d == (a + b) + (c + d)
  {
  }

  lemma TopGone(t: Tree, t': Tree)
    requires t.N? && t.l.Leaf? && t.r.Leaf? && Entries(t') == Before(Top) + Entries(t.l) + Entries(t.r) + After(Top)
    ensures t' == Leaf && Zone(All(Top, t'))
  {
    NoEntries(t');
  }

  lemma RemovedFlat(k: Way, t: Tree, t': Tree)
    requires t.N? && t.d.Leaf? && Entries(t') == Before(k) + Entries(t.l) + Entries(t.r) + After(k)
    ensures Flat(All(Base(k), t'), []) == ItemsBefore(k, t) + ItemsAfter(k, t)
  {
    hide Flat, FlatSeq, Before, After, Entries, FlatBefore, FlatAfter;
    var s := Suffix(k);
    AllClosed(k, t);
    BaseTop(k);
    FlatWhole(Base(k), t');
    FlatOfEntries(t', s);
    FlatOfEntries(t.l, s);
    FlatOfEntries(t.r, s);
    FlatSeqConcat(Before(k) + Entries(t.l) + Entries(t.r), After(k), s);
    FlatSeqConcat(Before(k) + Entries(t.l), Entries(t.r), s);
    FlatSeqConcat(Before(k), Entries(t.l), s);
    FlatLevel(k);
    LeafFlat(NameOf(t.e) + s);
    Gathered(FlatBefore(Base(k)), FlatSeq(Before(k), s), Flat(t.l, s), Flat(t.r, s), FlatSeq(After(k), s),
      FlatAfter(Base(k)));
  }

  lemma Gathered(a: seq<Item>, b: seq<Item>, c: seq<Item>, d: seq<Item>, e: seq<Item>, f: seq<Item>)
    ensures a + (b + c + d + e) + f == (a + b + c) + ([] + d + (e + f))
  {
  }

  /** The items around the hole are those of its level and those around the level. */
  lemma {:induction false} FlatLevel(k: Way)
    ensures FlatBefore(k) == FlatBefore(Base(k)) + FlatSeq(Before(k), Suffix(k))
    ensures FlatAfter(k) == FlatSeq(After(k), Suffix(k)) + FlatAfter(Base(k))
    decreases k
  {
    if k.InL? {
      FlatLevel(k.up);
      FlatLevelLeft(k);
    } else if k.InR? {
      FlatLevel(k.up);
      FlatLevelRight(k);
    }
  }

  lemma FlatLevelLeft(k: Way)
    requires k.InL?
    requires FlatAfter(k.up) == FlatSeq(After(k.up), Suffix(k)) + FlatAfter(Base(k))
    ensures FlatAfter(k) == FlatSeq([Entry(k.e, k.d)] + Entries(k.r) + After(k.up), Suffix(k)) + FlatAfter(Base(k))
  {
    hide Flat, FlatSeq, Entries, After, FlatOne;
    var x, s := Entry(k.e, k.d), Suffix(k);
    FlatOfEntries(k.r, s);
    FlatSeqConcat([x] + Entries(k.r), After(k.up), s);
    FlatSeqConcat([x], Entries(k.r), s);
    FlatSeqOne(x, s);
    ItemAssoc(FlatOne(x, s), Flat(k.r, s), FlatSeq(After(k.up), s), FlatAfter(Base(k)));
  }

  lemma FlatLevelRight(k: Way)
    requires k.InR?
    requires FlatBefore(k.up) == FlatBefore(Base(k)) + FlatSeq(Before(k.up), Suffix(k))
    ensures FlatBefore(k) == FlatBefore(Base(k)) + FlatSeq(Before(k.up) + Entries(k.l) + [Entry(k.e, k.d)], Suffix(k))
  {
    hide Flat, FlatSeq, Entries, Before, FlatOne;
    var x, s := Entry(k.e, k.d), Suffix(k);
    FlatOfEntries(k.l, s);
    FlatSeqConcat(Before(k.up) + Entries(k.l), [x], s);
    FlatSeqConcat(Before(k.up), Entries(k.l), s);
    FlatSeqOne(x, s);
    ItemAssoc(FlatBefore(Base(k)), FlatSeq(Before(k.up), s), Flat(k.l, s), FlatOne(x, s));
  }

  lemma ItemAssoc(a: seq<Item>, b: seq<Item>, c: seq<Item>, d: seq<Item>)
    ensures a + b + (c + d) == a + b + c + d == a + (b + c + d)
  {
  }

  // ----- Removal -----

  lemma RemovedStored(k: Way, t: Tree, t': Tree)
    requires t.N? && t.d.Leaf? && Entries(t') == Before(k) + Entries(t.l) + Entries(t.r) + After(k)
    ensures var a, b := Contents(ItemsBefore(k, t)), Contents(ItemsAfter(k, t));
      && Contents(Flat(All(Base(k), t'), [])) == a + b
      && Contents(Flat(All(k, t), [])) == a + Shows(OwnItem(k, t)) + b
      && |Flat(All(k, t), [])| == |Flat(All(Base(k), t'), [])| + 1
  {
    hide *;
    RemovedFlat(k, t, t');
    FlatAt(k, t);
    ContentsConcat(ItemsBefore(k, t), ItemsAfter(k, t));
    ContentsAround(ItemsBefore(k, t), OwnItem(k, t), ItemsAfter(k, t));
  }

  /** A node without a level below it leaves the tree. */
  method RemoveNode(tree: DomainTree, node: Node, upperNode: Node?, ghost k: Way, ghost t: Tree)
    returns (ghost t': Tree)
    requires TreeOk(tree) && Conf(tree.Now(), k, t) && All(k, t) == tree.shape && t.N? && t.d.Leaf?
    requires node == t.e.nd && upperNode == Upper(k)
    modifies tree`root, tree`nodeCount, tree`shape, tree.nodes
    ensures TreeOk(tree) && Conf(tree.Now(), Base(k), t') && All(Base(k), t') == tree.shape
    ensures Stored(tree) == Contents(ItemsBefore(k, t)) + Contents(ItemsAfter(k, t))
    ensures old(Stored(tree)) == Contents(ItemsBefore(k, t)) + Shows(OwnItem(k, t)) + Contents(ItemsAfter(k, t))
  {
    hide *;
    FissionSetup(tree, k, t);
    ghost var n := MendedAt(k, t);
    t' := Unlink(tree, node, upperNode, k, t, n);
    RemovedLevel(k, t, t');
    RemovedStored(k, t, t');
    tree.nodeCount := tree.nodeCount - 1;
    tree.shape := All(Base(k), t');
    TreeMake(tree, Base(k), t');
  }

  lemma {:induction false} ChainUpper(k: Way)
    ensures Chain(k) == [] <==> Upper(k) == null
    ensures Chain(k) != [] ==> Chain(k)[|Chain(k)| - 1] == Upper(k)
    ensures Chain(Base(k)) == Chain(k)
    decreases k
  {
    if k.InL? || k.InR? {
      ChainUpper(k.up);
    }
  }

  /** The node above a level that has just lost a node. */
  lemma AboveLevel(h: Heap, b: Way, t: Tree)
    requires Conf(h, b, t) && b.InD?
    ensures Conf(h, b.up, Fill(b, t)) && All(b, t) == All(b.up, Fill(b, t)) && Fill(b, t).d == t
    ensures Holds(h.cells, b.e.nd, CellOf(b.e, b.c, Above(b.up), Ref(b.l), Ref(b.r), Ref(t)))
    ensures Chain(b) == Chain(b.up) + [b.e.nd] && Depth(b.up) < Depth(b)
  {
    hide Conf;
    ConfUp(h, b, t);
    ConfCell(h, b.up, Fill(b, t));
  }

  /** All that is stored without the node in the hole. */
  ghost function Others(k: Way, t: Tree): map<seq<Label>, int>
    requires t.N?
  {
    AsMap(Contents(ItemsBefore(k, t)) + Contents(ItemsAfter(k, t)))
  }

  /** Without the node of a name, the map lacks that name. */
  lemma OthersOf(tree: DomainTree, k: Way, t: Tree, f: seq<Label>)
    requires TreeOk(tree) && All(k, t) == tree.shape && t.N? && SameLabels(NameOf(t.e) + Suffix(k), f)
    ensures Others(k, t) == Map(tree) - {Folded(f)}
  {
    hide Contents, AsMap, Conf, Flat, Zone, Distinct, ItemsBefore, ItemsAfter, SameLabels, SortedItems;
    var a, x, b := ItemsBefore(k, t), OwnItem(k, t), ItemsAfter(k, t);
    FlatAt(k, t);
    ContentsAround(a, x, b);
    ZoneSorted(tree.shape);
    OwnKey(k, t, f);
    if t.e.data.Data? {
      DropPair(Contents(a), Contents(b), Pair(Folded(f), t.e.data.value));
    } else {
      SameFolded(NameOf(t.e) + Suffix(k), f);
      OnlyOnce(a, x, b, Folded(f));
      assert Contents(a) + [] + Contents(b) == Contents(a) + Contents(b);
    }
  }

  /** A name is not stored beside its own node. */
  lemma OnlyOnce(a: seq<Item>, x: Item, b: seq<Item>, key: seq<Label>)
    requires SortedItems(a + [x] + b) && Folded(x.full) == key
    ensures key !in AsMap(Contents(a) + Contents(b))
  {
    hide Contents, AsMap, NameLess;
    ContentsConcat(a, b);
    AsMapKeys(Contents(a + b), key);
    if i :| 0 <= i < |Contents(a + b)| && Contents(a + b)[i].key == key {
      var j := ContentsKeys(a + b, i);
      var all := a + [x] + b;
      assert all[|a|] == x;
      if j < |a| {
        assert all[j] == (a + b)[j];
        LessDiffers(all[j].full, x.full);
      } else {
        assert all[j + 1] == (a + b)[j];
        LessDiffers(x.full, all[j + 1].full);
      }
    }
  }

  /** What one round of the loop needs and keeps: without the node in the hole, the map is `rest`. */
  ghost predicate Leaves(tree: DomainTree, k: Way, t: Tree, node: Node, path: seq<Node>, rest: map<seq<Label>, int>)
    reads tree, tree.nodes
  {
    && TreeOk(tree) && Conf(tree.Now(), k, t) && All(k, t) == tree.shape && t.N? && t.d.Leaf?
    && node == t.e.nd && path == Chain(k) + [node] && Others(k, t) == rest
  }

  /** The name of a stored node is taken out of the map; nodes that are left without data and level go with it. */
  method Remove(tree: DomainTree, name: Name) returns (removed: bool)
    requires TreeOk(tree) && Valid(name)
    modifies tree`root, tree`nodeCount, tree`shape, tree.nodes
    ensures TreeOk(tree)
    ensures removed <==> Find(old(tree.shape), Labels(name), tree.returnEmptyNode, NO_HIT).result == ExactMatch
    ensures Map(tree) == if removed then old(Map(tree)) - {Folded(Labels(name))} else old(Map(tree))
  {
    hide *;
    var node, result, nodePath;
    ghost var k, t;
    node, result, nodePath, k, t := SearchExt(tree, name);
    removed := result == ExactMatch;
    if !removed {
      return;
    }
    ghost var rest := Others(k, t);
    OthersOf(tree, k, t, Labels(name));
    FissionSetup(tree, k, t);
    if node.down != null {
      SetData(tree, node, NoData, k, t, true);
      NoneShown(tree, k, t);
      return;
    }
    LeavesStart(tree, k, t, node);
    ClearPath(tree, node, nodePath, k, t, rest);
  }

  /** The loop of `Remove`. */
  method ClearPath(tree: DomainTree, node: Node, nodePath: seq<Node>, ghost k: Way, ghost t: Tree,
                   ghost rest: map<seq<Label>, int>)
    requires Leaves(tree, k, t, node, nodePath, rest)
    modifies tree`root, tree`nodeCount, tree`shape, tree.nodes
    ensures TreeOk(tree) && Map(tree) == rest
  {
    hide *;
    LeavesFacts(tree, k, t, node, nodePath, rest);
    var node: Node, nodePath, more := node, nodePath, true;
    ghost var k, t := k, t;
    while more
      invariant TreeOk(tree) && (if more then Leaves(tree, k, t, node, nodePath, rest) else Map(tree) == rest)
      decreases more, Depth(k)
    {
      var upperNode: Node? := null;
      LeavesFacts(tree, k, t, node, nodePath, rest);
      if nodePath != [] {
        nodePath := nodePath[..|nodePath| - 1];
        if nodePath != [] {
          upperNode := nodePath[|nodePath| - 1];
        }
      }
      ghost var t' := RemoveNode(tree, node, upperNode, k, t);
      ghost var b := Base(k);
      LevelAbove(tree, k, t', upperNode);
      RestIs(tree, k, t, rest);
      if upperNode == null || upperNode.down != null || upperNode.data.Data? {
        more := false;
      } else {
        LeavesNext(tree, k, b, t', upperNode, rest);
        node, k, t := upperNode, b.up, Fill(b, t');
      }
    }
  }

  lemma NoneShown(tree: DomainTree, k: Way, t: Tree)
    requires t.N? && Stored(tree) == Contents(ItemsBefore(k, t)) + Shows(OwnItem(k, WithData(t, NoData)))
      + Contents(ItemsAfter(k, t))
    ensures Map(tree) == Others(k, t)
  {
    hide Contents, AsMap;
    assert Contents(ItemsBefore(k, t)) + [] + Contents(ItemsAfter(k, t))
      == Contents(ItemsBefore(k, t)) + Contents(ItemsAfter(k, t));
  }

  lemma LeavesStart(tree: DomainTree, k: Way, t: Tree, node: Node)
    requires TreeOk(tree) && Conf(tree.Now(), k, t) && All(k, t) == tree.shape && t.N? && node == t.e.nd
    requires Ref(t.d) == null
    ensures Leaves(tree, k, t, node, Chain(k) + [node], Others(k, t))
  {
    hide TreeOk, Conf, All, Others, Chain;
  }

  lemma LeavesFacts(tree: DomainTree, k: Way, t: Tree, node: Node, path: seq<Node>, rest: map<seq<Label>, int>)
    requires Leaves(tree, k, t, node, path, rest)
    ensures TreeOk(tree) && Conf(tree.Now(), k, t) && All(k, t) == tree.shape && t.N? && t.d.Leaf? && node == t.e.nd
    ensures path == Chain(k) + [node] && path[..|path| - 1] == Chain(k) && Others(k, t) == rest
    ensures Chain(k) == [] <==> Upper(k) == null
    ensures Chain(k) != [] ==> Chain(k)[|Chain(k)| - 1] == Upper(k)
  {
    hide TreeOk, Conf, All, Others;
    ChainUpper(k);
  }

  lemma LevelAbove(tree: DomainTree, k: Way, t: Tree, up: Node?)
    requires Conf(tree.Now(), Base(k), t) && up == Upper(k)
    ensures up != null ==>
      && Base(k).InD? && up == Base(k).e.nd && up in tree.nodes && up.down == Ref(t) && up.data == Base(k).e.data
      && Conf(tree.Now(), Base(k).up, Fill(Base(k), t)) && All(Base(k), t) == All(Base(k).up, Fill(Base(k), t))
      && Chain(k) == Chain(Base(k).up) + [up] && Depth(Base(k).up) < Depth(k)
  {
    hide Conf;
    ChainUpper(k);
    if up != null {
      AboveLevel(tree.Now(), Base(k), t);
    }
  }

  lemma RestIs(tree: DomainTree, k: Way, t: Tree, rest: map<seq<Label>, int>)
    requires t.N? && Others(k, t) == rest && Stored(tree) == Contents(ItemsBefore(k, t)) + Contents(ItemsAfter(k, t))
    ensures Map(tree) == rest
  {
  }

  /** A node above that holds neither data nor a level is the next to go. */
  lemma LeavesNext(tree: DomainTree, k: Way, b: Way, t: Tree, up: Node, rest: map<seq<Label>, int>)
    requires b == Base(k) && b.InD? && up == b.e.nd && Ref(t) == null && b.e.data == NoData && TreeOk(tree)
    requires Conf(tree.Now(), b.up, Fill(b, t)) && All(b, t) == tree.shape && All(b, t) == All(b.up, Fill(b, t))
    requires Chain(k) == Chain(b.up) + [up] && Map(tree) == rest
    ensures Leaves(tree, b.up, Fill(b, t), up, Chain(k), rest)
  {
    hide TreeOk, Conf, All, Contents, AsMap, Chain;
    var p := Fill(b, t);
    FlatAt(b.up, p);
    ContentsAround(ItemsBefore(b.up, p), OwnItem(b.up, p), ItemsAfter(b.up, p));
    var x, y := Contents(ItemsBefore(b.up, p)), Contents(ItemsAfter(b.up, p));
    assert x + [] + y == x + y;
  }
}
