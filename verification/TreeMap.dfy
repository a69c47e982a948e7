/** The tree of `cement/domaintree/domaintree.go`, a map from names to values. */
module TreeMap {
  import opened Octets
  import opened Names
  import opened NameOrder
  import opened Trees
  import opened RedBlack
  import opened Zones
  import opened ZoneContents
  import opened TreeSearch
  import opened TreeInsert

  // ----- The data of a node -----

  ghost function WithData(t: Tree, data: Data): (t': Tree)
    requires t.N?
    ensures t'.N? && t'.e.nd == t.e.nd
  {
    N(Info(t.e.nd, t.e.name, data), t.c, t.l, t.r, t.d)
  }

  lemma DataConf(h: Heap, h': Heap, k: Way, t: Tree, data: Data)
    requires Conf(h, k, t) && t.N? && DataSet(h, h', t.e.nd, data)
    ensures Conf(h', k, WithData(t, data))
  {
    hide WayTidy;
    SubFrame(h.cells, h'.cells, t.e.nd, t.l);
    SubFrame(h.cells, h'.cells, t.e.nd, t.r);
    SubFrame(h.cells, h'.cells, null, t.d);
    AroundFrame(h.cells, h'.cells, k, t.e.nd, h.root);
  }

  lemma DataZone(k: Way, t: Tree, data: Data)
    requires Zone(All(k, t)) && t.N?
    ensures Zone(All(k, WithData(t, data)))
  {
    hide Level;
    var t' := WithData(t, data);
    ZoneNode(k, t);
    if Base(k).InD? {
      assert GoodNode(t.e, t.d, Suffix(k));
    }
    TwinSelf(t.l);
    TwinSelf(t.r);
    Replace(k, t, t');
  }

  /** The items before and after a node. */
  ghost function ItemsBefore(k: Way, t: Tree): seq<Item>
    requires t.N?
  {
    FlatBefore(k) + Flat(t.l, Suffix(k))
  }

  ghost function ItemsAfter(k: Way, t: Tree): seq<Item>
    requires t.N?
  {
    Flat(t.d, NameOf(t.e) + Suffix(k)) + Flat(t.r, Suffix(k)) + FlatAfter(k)
  }

  ghost function OwnItem(k: Way, t: Tree): Item
    requires t.N?
  {
    Item(NameOf(t.e) + Suffix(k), t.e.nd, t.e.data)
  }

  lemma FlatAt(k: Way, t: Tree)
    requires t.N?
    ensures Flat(All(k, t), []) == ItemsBefore(k, t) + [OwnItem(k, t)] + ItemsAfter(k, t)
  {
    FlatWhole(k, t);
    var s := Suffix(k);
    Gather(FlatBefore(k), Flat(t.l, s), [OwnItem(k, t)], Flat(t.d, NameOf(t.e) + s), Flat(t.r, s), FlatAfter(k));
  }

  lemma Gather(a: seq<Item>, b: seq<Item>, c: seq<Item>, d: seq<Item>, e: seq<Item>, f: seq<Item>)
    ensures a + (b + (c + d) + e) + f == (a + b) + c + (d + e + f)
  {
  }

  lemma DataStored(k: Way, t: Tree, data: Data)
    requires t.N?
    ensures var xs, t' := ItemsBefore(k, t), WithData(t, data);
      && Contents(Flat(All(k, t'), [])) == Contents(xs) + Shows(OwnItem(k, t')) + Contents(ItemsAfter(k, t))
      && Contents(Flat(All(k, t), [])) == Contents(xs) + Shows(OwnItem(k, t)) + Contents(ItemsAfter(k, t))
      && |Flat(All(k, t'), [])| == |Flat(All(k, t), [])|
  {
    hide Contents, Flat, Shows;
    var t' := WithData(t, data);
    FlatAt(k, t);
    FlatAt(k, t');
    ContentsAround(ItemsBefore(k, t), OwnItem(k, t), ItemsAfter(k, t));
    ContentsAround(ItemsBefore(k, t), OwnItem(k, t'), ItemsAfter(k, t));
  }

  /** The data of one node changes, and in a tree that is `fit` nothing else of what is stored. */
  method SetData(tree: DomainTree, node: Node, data: Data, ghost k: Way, ghost t: Tree, ghost fit: bool)
    requires node in tree.nodes
    requires fit ==> TreeOk(tree) && Conf(tree.Now(), k, t) && All(k, t) == tree.shape && t.N? && node == t.e.nd
    modifies tree`shape, tree.nodes`data
    ensures DataSet(old(tree.Now()), tree.Now(), node, data)
    ensures fit ==> TreeOk(tree) && Conf(tree.Now(), k, WithData(t, data)) && All(k, WithData(t, data)) == tree.shape
    ensures fit ==> var before, after := Contents(ItemsBefore(k, t)), Contents(ItemsAfter(k, t));
      && Stored(tree) == before + Shows(OwnItem(k, WithData(t, data))) + after
      && old(Stored(tree)) == before + Shows(OwnItem(k, t)) + after
  {
    hide *;
    ghost var h := tree.Now();
    if fit {
      FissionSetup(tree, k, t);
    }
    Assign(tree, node, data);
    if fit {
      DataConf(h, tree.Now(), k, t, data);
      DataZone(k, t, data);
      DataStored(k, t, data);
      tree.shape := All(k, WithData(t, data));
      TreeMake(tree, k, WithData(t, data));
    }
  }

  ghost predicate DataSet(h: Heap, h': Heap, node: Node, data: Data) {
    && node in h.cells && Holds(h'.cells, node, h.cells[node].(data := data))
    && SameOn(h.cells, h'.cells, h.cells.Keys - {node}) && h'.root == h.root
  }

  method Assign(tree: DomainTree, node: Node, data: Data)
    requires node in tree.nodes
    modifies node`data
    ensures DataSet(old(tree.Now()), tree.Now(), node, data) && tree.root == old(tree.root)
  {
    node.data := data;
  }

  // ----- The map -----

  /** The names of a well-formed tree are stored in canonical order. */
  lemma ZoneSorted(t: Tree)
    requires Zone(t)
    ensures SortedItems(Flat(t, [])) && Distinct(Contents(Flat(t, [])))
  {
    hide Level, NameLess;
    if t.N? {
      var x := NameOf(t.e);
      assert x + [] == x;
      LevelGood(t.d, x);
      FlatSorted(t.d, x);
      var a, b := [Item(x, t.e.nd, t.e.data)], Flat(t.d, x);
      forall i, j | 0 <= i < |a| && 0 <= j < |b|
        ensures NameLess(a[i].full, b[j].full)
      {
        var j' := FlatUnder(t.d, x, j);
        BelowLater(b[j].full, x, Key(Entries(t.d)[j'].e));
      }
      SortedJoin(a, b);
      assert Flat(t, []) == a + b;
    }
    ContentsDistinct(Flat(t, []));
  }

  /** What the tree stores, as a map from names in lower case. */
  ghost function Map(tree: DomainTree): map<seq<Label>, int>
    reads tree`shape
  {
    AsMap(Stored(tree))
  }

  lemma StoredDistinct(tree: DomainTree)
    requires TreeOk(tree)
    ensures Distinct(Stored(tree))
  {
    ZoneSorted(tree.shape);
  }

  lemma OwnKey(k: Way, t: Tree, f: seq<Label>)
    requires t.N? && SameLabels(NameOf(t.e) + Suffix(k), f)
    ensures Shows(OwnItem(k, t)) == (if t.e.data.Data? then [Pair(Folded(f), t.e.data.value)] else [])
  {
    SameFolded(NameOf(t.e) + Suffix(k), f);
  }

  /**
    * A value is stored under a name: the map changes there and nowhere else, unless the root name
    * goes above another top.
    */
  method InsertValue(tree: DomainTree, name: Name, value: int) returns (node: Node)
    requires TreeOk(tree) && Valid(name)
    modifies tree, tree.nodes
    ensures fresh(tree.nodes - old(tree.nodes))
    ensures old(Takes(tree.shape, name)) ==>
      TreeOk(tree) && Map(tree) == old(Map(tree))[Folded(Labels(name)) := value]
    ensures old(!Takes(tree.shape, name)) ==>
      && old(tree.root) != null && RootAdded(old(tree.Now()), tree.Now(), node, old(tree.root), Data(value))
      && forall s :: !Conf(tree.Now(), Top, s)
  {
    hide *;
    MapIs(tree);
    var exists_;
    ghost var k, t;
    node, exists_, k, t := Insert(tree, name);
    ghost var h := tree.Now();
    ghost var fit := old(Takes(tree.shape, name));
    SetData(tree, node, Data(value), k, t, fit);
    if fit {
      StoredDistinct(tree);
      PutAt(k, t, value, Labels(name));
      MapIs(tree);
    } else {
      RootValue(old(tree.Now()), h, tree.Now(), node, old(tree.root), value);
    }
  }

  lemma RootValue(h: Heap, h': Heap, h'': Heap, n: Node, current: Node, value: int)
    requires RootAdded(h, h', n, current, NoData) && DataSet(h', h'', n, Data(value))
    ensures RootAdded(h, h'', n, current, Data(value)) && forall s :: !Conf(h'', Top, s)
  {
    hide Conf;
    forall s ensures !Conf(h'', Top, s) {
      RootBreaks(h, h'', n, current, Data(value), s);
    }
  }

  lemma MapIs(tree: DomainTree)
    ensures Map(tree) == AsMap(Stored(tree))
  {
  }

  lemma PutAt(k: Way, t: Tree, value: int, f: seq<Label>)
    requires t.N? && SameLabels(NameOf(t.e) + Suffix(k), f)
    requires Distinct(Contents(ItemsBefore(k, t)) + Shows(OwnItem(k, WithData(t, Data(value))))
      + Contents(ItemsAfter(k, t)))
    ensures var a, b := Contents(ItemsBefore(k, t)), Contents(ItemsAfter(k, t));
      AsMap(a + Shows(OwnItem(k, WithData(t, Data(value)))) + b)
        == AsMap(a + Shows(OwnItem(k, t)) + b)[Folded(f) := value]
  {
    hide Contents, AsMap, Shows, Distinct, SameLabels, ItemsBefore, ItemsAfter;
    OwnKey(k, t, f);
    OwnKey(k, WithData(t, Data(value)), f);
    PutPair(Contents(ItemsBefore(k, t)), Shows(OwnItem(k, t)), Contents(ItemsAfter(k, t)), Pair(Folded(f), value));
  }
}
