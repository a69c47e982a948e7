/** `Insert`, `insertRoot` and `nodeFission` of `g53/domaintree/domaintree.go`. */
module TreeInsert {
  import opened Octets
  import opened Names
  import opened NameOrder
  import opened NameOps
  import opened Trees
  import opened Rotations
  import opened RedBlack
  import opened InsertBalance
  import opened RemoveBalance
  import opened Unlinking
  import opened Zones
  import opened ZoneContents
  import opened TreeSearch

  // ----- The letter case of a suffix does not matter -----

  lemma FitsFold(x: seq<Label>, y: seq<Label>)
    requires SameLabels(x, y)
    ensures FitsName(x) == FitsName(y)
  {
    SameLabelsSameWire(x, y);
  }

  lemma FitsSuffix(x: seq<Label>, y: seq<Label>)
    requires FitsName(x + y)
    ensures FitsName(y)
  {
    BodyConcat(x, y);
  }

  lemma SameBehind(x: seq<Label>, s: seq<Label>, s': seq<Label>)
    requires SameLabels(s, s')
    ensures SameLabels(x + s, x + s')
  {
    forall i | 0 <= i < |x + s|
      ensures SameFold((x + s)[i], (x + s')[i])
    {
      if i >= |x| {
        assert SameFold(s[i - |x|], s'[i - |x|]);
      }
    }
  }

  lemma {:induction false} GoodFold(t: Tree, s: seq<Label>, s': seq<Label>)
    requires SameLabels(s, s') && Good(t, s)
    ensures Good(t, s')
    decreases t
  {
    hide SameLabels, Balanced, Sorted, FitsName, Valid;
    if t.N? {
      GoodFold(t.l, s, s');
      GoodFold(t.r, s, s');
      var x := Labels(t.e.name);
      SameBehind(x, s, s');
      FitsFold(x + s, x + s');
      assert GoodNode(t.e, t.d, s);
      assert Level(t.d, x + s);
      GoodFold(t.d, x + s, x + s');
      assert Level(t.d, x + s');
      assert GoodNode(t.e, t.d, s');
    }
  }

  lemma LevelFold(t: Tree, s: seq<Label>, s': seq<Label>)
    requires SameLabels(s, s') && Level(t, s)
    ensures Level(t, s')
  {
    GoodFold(t, s, s');
  }

  lemma AlikeJoin(a: seq<Item>, a': seq<Item>, b: seq<Item>, b': seq<Item>)
    requires ZoneContents.Alike(a, a') && ZoneContents.Alike(b, b')
    ensures ZoneContents.Alike(a + b, a' + b')
  {
    hide SameLabels;
  }

  lemma {:induction false} FlatFold(t: Tree, s: seq<Label>, s': seq<Label>)
    requires SameLabels(s, s')
    ensures ZoneContents.Alike(Flat(t, s), Flat(t, s'))
    decreases t
  {
    hide SameLabels, ZoneContents.Alike;
    if t.N? {
      var x := NameOf(t.e);
      FlatFold(t.l, s, s');
      FlatFold(t.r, s, s');
      SameBehind(x, s, s');
      FlatFold(t.d, x + s, x + s');
      var i, i' := Item(x + s, t.e.nd, t.e.data), Item(x + s', t.e.nd, t.e.data);
      AlikeItem(i, i');
      AlikeJoin([i], [i'], Flat(t.d, x + s), Flat(t.d, x + s'));
      AlikeJoin(Flat(t.l, s), Flat(t.l, s'), FlatOne(Entry(t.e, t.d), s), FlatOne(Entry(t.e, t.d), s'));
      AlikeJoin(Flat(t.l, s) + FlatOne(Entry(t.e, t.d), s), Flat(t.l, s') + FlatOne(Entry(t.e, t.d), s'),
        Flat(t.r, s), Flat(t.r, s'));
    } else {
      NoneAlike();
    }
  }

  lemma NoneAlike()
    ensures ZoneContents.Alike([], [])
  {
  }

  lemma AlikeItem(i: Item, i': Item)
    requires i.data == i'.data && SameLabels(i.full, i'.full)
    ensures ZoneContents.Alike([i], [i'])
  {
  }

  // ----- Fission: a node gives its upper labels to a level of its own -----

  ghost function Fissioned(t: Tree, base: Name, sub: Name, dn: Node): (t': Tree)
    requires t.N?
    ensures t'.N? && t'.e == Info(t.e.nd, base, NoData) && t'.l == t.l && t'.r == t.r && t'.c == t.c
  {
    N(Info(t.e.nd, base, NoData), t.c, t.l, t.r, N(Info(dn, sub, t.e.data), Black, Leaf, Leaf, t.d))
  }

  /** `base` holds the last `c` labels of the node up to case, `sub` the others. */
  ghost predicate Parts(t: Tree, base: Name, sub: Name, c: nat) {
    && t.N? && Valid(base) && Valid(sub) && c < |NameOf(t.e)| && Labels(sub) == NameOf(t.e)[..|NameOf(t.e)| - c]
    && SameLabels(Labels(base), NameOf(t.e)[|NameOf(t.e)| - c..])
  }

  lemma PartsJoin(t: Tree, base: Name, sub: Name, c: nat, s: seq<Label>)
    requires Parts(t, base, sub, c)
    ensures SameLabels(Labels(sub) + (Labels(base) + s), NameOf(t.e) + s) && Labels(sub) != []
    ensures FitsName(NameOf(t.e) + s) ==> FitsName(Labels(base) + s) && FitsName(Labels(sub) + (Labels(base) + s))
  {
    var x, b, u := NameOf(t.e), Labels(base), Labels(sub);
    var b' := x[|x| - c..];
    assert x == u + b';
    SameConcat(b, b', s);
    SameBehind(u, b + s, b' + s);
    assert u + (b' + s) == x + s;
    FitsFold(u + (b + s), x + s);
    if FitsName(x + s) {
      FitsSuffix(u, b + s);
    }
  }

  lemma SingleLevel(e: Info, d: Tree, s: seq<Label>)
    requires GoodNode(e, d, s)
    ensures Level(N(e, Black, Leaf, Leaf, d), s)
  {
    var t := N(e, Black, Leaf, Leaf, d);
    assert Even(Leaf, 0);
    assert Even(t, 1);
    assert Entries(Leaf) == [] && |Entries(t)| == 1;
    assert Balanced(t) && Sorted(Entries(t));
    assert Good(Leaf, s) && Good(t, s);
  }

  lemma FissionGood(t: Tree, base: Name, sub: Name, c: nat, dn: Node, s: seq<Label>)
    requires Parts(t, base, sub, c) && Valid(t.e.name) && FitsName(NameOf(t.e) + s) && Level(t.d, NameOf(t.e) + s)
    ensures Level(Fissioned(t, base, sub, dn).d, Labels(base) + s)
  {
    hide Level, SameLabels;
    PartsJoin(t, base, sub, c, s);
    var x, b, u := NameOf(t.e), Labels(base), Labels(sub);
    SameEither(u + (b + s), x + s);
    LevelFold(t.d, x + s, u + (b + s));
    SingleLevel(Info(dn, sub, t.e.data), t.d, b + s);
  }

  lemma FissionFlat(t: Tree, base: Name, sub: Name, c: nat, dn: Node, s: seq<Label>)
    requires Parts(t, base, sub, c)
    ensures var xs, ys := Flat(t, s), Flat(Fissioned(t, base, sub, dn), s);
      Contents(ys) == Contents(xs) && |ys| == |xs| + 1
  {
    hide Contents, Flat, FlatOne;
    var t', i := Fissioned(t, base, sub, dn), Item(Labels(base) + s, t.e.nd, NoData);
    var l, r, own, own' := Flat(t.l, s), Flat(t.r, s), FlatOne(Entry(t.e, t.d), s),
      FlatOne(Entry(t'.d.e, t.d), Labels(base) + s);
    FissionOwn(t, base, sub, c, dn, s);
    FlatParts(t, s);
    FlatParts(t', s);
    ContentsThree(l, own, r);
    ContentsThree(l, [i] + own', r);
    ContentsConcat([i], own');
    ContentsOne(i);
  }

  lemma FissionOwn(t: Tree, base: Name, sub: Name, c: nat, dn: Node, s: seq<Label>)
    requires Parts(t, base, sub, c)
    ensures var t' := Fissioned(t, base, sub, dn);
      var own, own' := FlatOne(Entry(t.e, t.d), s), FlatOne(Entry(t'.d.e, t.d), Labels(base) + s);
      && Contents(own') == Contents(own) && |own'| == |own|
      && FlatOne(Entry(t'.e, t'.d), s) == [Item(Labels(base) + s, t.e.nd, NoData)] + own'
  {
    hide Contents, SameLabels, ZoneContents.Alike;
    PartsJoin(t, base, sub, c, s);
    var x, b, u, t' := NameOf(t.e), Labels(base), Labels(sub), Fissioned(t, base, sub, dn);
    var own, own' := FlatOne(Entry(t.e, t.d), s), FlatOne(Entry(t'.d.e, t.d), b + s);
    FlatFold(t.d, u + (b + s), x + s);
    AlikeItem(own'[0], own[0]);
    AlikeJoin([own'[0]], [own[0]], Flat(t.d, u + (b + s)), Flat(t.d, x + s));
    AlikeContents(own', own);
    AlikeSize(own', own);
    LeafFlat(b + s);
    FlatParts(t'.d, b + s);
    assert [] + own' + [] == own';
  }

  lemma AlikeSize(a: seq<Item>, b: seq<Item>)
    requires ZoneContents.Alike(a, b)
    ensures |a| == |b|
  {
  }

  /** Fission keeps the tree well formed and all that it stores; it adds one node without data. */
  lemma FissionZone(k: Way, t: Tree, base: Name, sub: Name, c: nat, dn: Node)
    requires Zone(All(k, t)) && Parts(t, base, sub, c) && (c > 0 || k.Top?)
    ensures Zone(All(k, Fissioned(t, base, sub, dn)))
    ensures var xs, ys := Flat(All(k, t), []), Flat(All(k, Fissioned(t, base, sub, dn)), []);
      Contents(ys) == Contents(xs) && |ys| == |xs| + 1
  {
    var s, t' := Suffix(k), Fissioned(t, base, sub, dn);
    ZoneNode(k, t);
    assert Base(k).InD? ==> GoodNode(t.e, t.d, s);
    if k.Top? {
      assert NameOf(t.e) + s == NameOf(t.e) && Labels(base) + s == Labels(base);
    }
    hide Level;
    FissionGood(t, base, sub, c, dn, s);
    PartsJoin(t, base, sub, c, s);
    if !k.Top? {
      FissionTwin(t, base, sub, c, dn);
      Replace(k, t, t');
    }
    FissionFlat(t, base, sub, c, dn, s);
    FlatWhole(k, t);
    FlatWhole(k, t');
    ContentsThree(FlatBefore(k), Flat(t, s), FlatAfter(k));
    ContentsThree(FlatBefore(k), Flat(t', s), FlatAfter(k));
  }

  lemma ContentsThree(a: seq<Item>, b: seq<Item>, c: seq<Item>)
    ensures Contents(a + b + c) == Contents(a) + Contents(b) + Contents(c)
  {
    ContentsConcat(a + b, c);
    ContentsConcat(a, b);
  }

  lemma FissionTwin(t: Tree, base: Name, sub: Name, c: nat, dn: Node)
    requires Parts(t, base, sub, c) && c > 0
    ensures Twin(t, Fissioned(t, base, sub, dn))
  {
    TwinSelf(t.l);
    TwinSelf(t.r);
    var x, b := NameOf(t.e), Labels(base);
    assert SameFold(b[c - 1], x[|x| - c..][c - 1]);
  }

  /** The names of a tree that hold data, in order, with their data. */
  ghost function Stored(tree: DomainTree): seq<Pair>
    reads tree`shape
  {
    Contents(Flat(tree.shape, []))
  }

  // ----- New nodes in the heap -----

  lemma {:induction false} SubNodes(m: Cells, p: Node?, t: Tree)
    requires Sub(m, p, t)
    ensures Nodes(t) <= m.Keys
    decreases t
  {
    if t.N? {
      SubNodes(m, t.e.nd, t.l);
      SubNodes(m, t.e.nd, t.r);
      SubNodes(m, null, t.d);
    }
  }

  lemma {:induction false} AroundNodes(m: Cells, k: Way, hole: Node?, root: Node?)
    requires Around(m, k, hole, root)
    ensures WayNodes(k) <= m.Keys
    decreases k
  {
    match k {
      case Top =>
      case InL(e, c, r, d, up) =>
        SubNodes(m, e.nd, r);
        SubNodes(m, null, d);
        AroundNodes(m, up, e.nd, root);
      case InR(e, c, l, d, up) =>
        SubNodes(m, e.nd, l);
        SubNodes(m, null, d);
        AroundNodes(m, up, e.nd, root);
      case InD(e, c, l, r, up) =>
        SubNodes(m, e.nd, l);
        SubNodes(m, e.nd, r);
        AroundNodes(m, up, e.nd, root);
    }
  }

  /** All nodes of a tree are in its heap. */
  lemma ConfNodes(h: Heap, k: Way, t: Tree)
    requires Conf(h, k, t)
    ensures Nodes(t) <= h.cells.Keys && WayNodes(k) <= h.cells.Keys
  {
    SubNodes(h.cells, Above(k), t);
    AroundNodes(h.cells, k, Ref(t), h.root);
  }

  lemma FissionConf(h: Heap, h': Heap, k: Way, t: Tree, base: Name, sub: Name, dn: Node)
    requires Conf(h, k, t) && t.N? && NodeSplit(h, h', t.e.nd, base, sub, dn)
    ensures Conf(h', k, Fissioned(t, base, sub, dn))
  {
    hide Conf, Tidy, WayTidy, Nodes, WayNodes;
    var m, m', nd := h.cells, h'.cells, t.e.nd;
    ConfNodes(h, k, t);
    ConfParts(h, k, t);
    FissionTidy(k, t, base, sub, dn);
    SubFrame(m, m', nd, t.l);
    SubFrame(m, m', nd, t.r);
    SubFrame(m, m', null, t.d);
    AroundFrame(m, m', k, nd, h.root);
    var t' := Fissioned(t, base, sub, dn);
    assert Sub(m', null, t'.d);
    assert Sub(m', Above(k), t');
    ConfMake(h', k, t');
  }

  lemma FissionTidy(k: Way, t: Tree, base: Name, sub: Name, dn: Node)
    requires t.N? && Tidy(t) && dn !in Nodes(t) && dn !in WayNodes(k) && Nodes(t) !! WayNodes(k)
    ensures var t' := Fissioned(t, base, sub, dn); Tidy(t') && Nodes(t') !! WayNodes(k)
    ensures t.e.nd !in Nodes(t.l) && t.e.nd !in Nodes(t.r) && t.e.nd !in Nodes(t.d) && t.e.nd !in WayNodes(k)
    ensures Nodes(t.l) <= Nodes(t) && Nodes(t.r) <= Nodes(t) && Nodes(t.d) <= Nodes(t)
  {
    var t' := Fissioned(t, base, sub, dn);
    assert Nodes(Leaf) == {} && Tidy(Leaf);
    assert Nodes(t'.d) == {dn} + Nodes(t.d);
    assert Apart(dn, Leaf, Leaf) && Tidy(t'.d);
    hide Nodes, Tidy;
    FissionNodes(t, t', dn);
  }

  lemma FissionNodes(t: Tree, t': Tree, dn: Node)
    requires t.N? && Tidy(t) && t'.N? && t'.e.nd == t.e.nd && t'.l == t.l && t'.r == t.r
    requires Nodes(t'.d) == {dn} + Nodes(t.d) && Tidy(t'.d) && dn !in Nodes(t)
    ensures Tidy(t') && Nodes(t') == Nodes(t) + {dn}
    ensures t.e.nd !in Nodes(t.l) && t.e.nd !in Nodes(t.r) && t.e.nd !in Nodes(t.d)
    ensures Nodes(t.l) <= Nodes(t) && Nodes(t.r) <= Nodes(t) && Nodes(t.d) <= Nodes(t) && t.e.nd in Nodes(t)
  {
  }

  lemma ConfMake(h: Heap, k: Way, t: Tree)
    requires Around(h.cells, k, Ref(t), h.root) && Sub(h.cells, Above(k), t)
    requires Tidy(t) && WayTidy(k) && Nodes(t) !! WayNodes(k)
    ensures Conf(h, k, t)
  {
  }

  /** The links after a node has given its data and its level to a new node below it. */
  ghost predicate NodeSplit(h: Heap, h': Heap, n: Node, base: Name, sub: Name, dn: Node) {
    && n in h.cells && dn !in h.cells && h'.root == h.root && SameOn(h.cells, h'.cells, h.cells.Keys - {n})
    && Holds(h'.cells, n, h.cells[n].(name := base, data := NoData, down := dn))
    && Holds(h'.cells, dn, Cell(null, null, null, h.cells[n].down, Black, sub, h.cells[n].data))
  }

  method SplitNode(tree: DomainTree, oldNode: Node, baseName: Name, subName: Name) returns (downNode: Node)
    requires oldNode in tree.nodes
    modifies tree`nodes, oldNode`name, oldNode`data, oldNode`down
    ensures fresh(downNode) && tree.nodes == old(tree.nodes) + {downNode}
    ensures NodeSplit(old(tree.Now()), tree.Now(), oldNode, baseName, subName, downNode)
  {
    downNode := new Node(subName);
    oldNode.name := baseName;
    downNode.data, oldNode.data := oldNode.data, downNode.data;
    downNode.down := oldNode.down;
    oldNode.down := downNode;
    downNode.color := Black;
    tree.nodes := tree.nodes + {downNode};
  }

  lemma FissionSetup(tree: DomainTree, k: Way, t: Tree)
    requires TreeOk(tree) && Conf(tree.Now(), k, t) && All(k, t) == tree.shape && t.N?
    ensures t.e.nd in tree.nodes && t.e.nd.name == t.e.name && t.e.nd.data == t.e.data && t.e.nd.down == Ref(t.d)
    ensures Valid(t.e.name) && NameOf(t.e) == Labels(t.e.name)
    ensures Zone(tree.shape) && tree.nodeCount == |Flat(tree.shape, [])|
    ensures Stored(tree) == Contents(Flat(tree.shape, []))
  {
    hide Zone, Flat, Conf, Level, Contents;
    ConfCell(tree.Now(), k, t);
    ZoneNode(k, t);
  }

  lemma FissionParts(t: Tree, base: Name, sub: Name)
    requires t.N? && Valid(base) && Valid(sub) && |Labels(base)| < |NameOf(t.e)|
    requires Labels(sub) == NameOf(t.e)[..|NameOf(t.e)| - |Labels(base)|]
    requires SameLabels(Labels(base), NameOf(t.e)[|NameOf(t.e)| - |Labels(base)|..])
    ensures Parts(t, base, sub, |Labels(base)|)
  {
  }

  lemma TreeMake(tree: DomainTree, k: Way, t: Tree)
    requires Conf(tree.Now(), k, t) && All(k, t) == tree.shape && Zone(tree.shape)
    requires tree.nodeCount == |Flat(tree.shape, [])|
    ensures TreeOk(tree) && Stored(tree) == Contents(Flat(tree.shape, []))
  {
    hide Zone, Flat, Conf, All, Contents;
    ConfWhole(tree.Now(), k, t);
  }

  method NodeFission(tree: DomainTree, oldNode: Node, baseName: Name, ghost k: Way, ghost t: Tree)
    returns (ghost t': Tree)
    requires TreeOk(tree) && Conf(tree.Now(), k, t) && All(k, t) == tree.shape && t.N? && oldNode == t.e.nd
    requires Valid(baseName) && |Labels(baseName)| < |NameOf(t.e)| && (Labels(baseName) != [] || k.Top?)
    requires SameLabels(Labels(baseName), NameOf(t.e)[|NameOf(t.e)| - |Labels(baseName)|..])
    modifies tree, oldNode
    ensures TreeOk(tree) && Conf(tree.Now(), k, t') && All(k, t') == tree.shape && fresh(tree.nodes - old(tree.nodes))
    ensures t'.N? && t'.e == Info(oldNode, baseName, NoData) && t'.l == t.l && t'.r == t.r && t'.c == t.c
    ensures Stored(tree) == old(Stored(tree))
  {
    hide *;
    ghost var h := tree.Now();
    FissionSetup(tree, k, t);
    var oldName := oldNode.name;
    var rest := Subtract(oldName, baseName);
    var subName := rest.name;
    var downNode := SplitNode(tree, oldNode, baseName, subName);
    tree.nodeCount := tree.nodeCount + 1;
    FissionParts(t, baseName, subName);
    FissionConf(h, tree.Now(), k, t, baseName, subName, downNode);
    FissionZone(k, t, baseName, subName, |Labels(baseName)|, downNode);
    t' := Fissioned(t, baseName, subName, downNode);
    tree.shape := All(k, t');
    TreeMake(tree, k, t');
  }

  /** The links after a new node has been put into an empty hole. */
  ghost predicate Planted(h: Heap, h': Heap, k: Way, n: Node, name: Name) {
    && n !in h.cells
    && Holds(h'.cells, n, Cell(Above(k), null, null, null, if Above(k) == null then Black else Red, name, NoData))
    && (if k.Top? then h'.root == n && SameOn(h.cells, h'.cells, h.cells.Keys)
        else
          && h'.root == h.root && k.e.nd in h.cells && SameOn(h.cells, h'.cells, h.cells.Keys - {k.e.nd})
          && Holds(h'.cells, k.e.nd, if k.InL? then h.cells[k.e.nd].(left := n)
                                     else if k.InR? then h.cells[k.e.nd].(right := n)
                                     else h.cells[k.e.nd].(down := n)))
  }

  ghost function NewLeaf(k: Way, n: Node, name: Name): (t: Tree)
    ensures t.N? && t.e == Info(n, name, NoData) && t.d.Leaf?
  {
    N(Info(n, name, NoData), if Above(k) == null then Black else Red, Leaf, Leaf, Leaf)
  }

  lemma PlantedConf(h: Heap, h': Heap, k: Way, n: Node, name: Name)
    requires Conf(h, k, Leaf) && Planted(h, h', k, n, name)
    ensures Conf(h', k, NewLeaf(k, n, name))
  {
    var m, m', t := h.cells, h'.cells, NewLeaf(k, n, name);
    ConfNodes(h, k, Leaf);
    assert WayTidy(k) && Nodes(Leaf) == {} && Nodes(t) == {n} && Tidy(t);
    PlantedAround(h, h', k, n, name);
    assert Sub(m', n, Leaf) && Sub(m', null, Leaf);
    assert Sub(m', Above(k), t);
  }

  lemma PlantedAround(h: Heap, h': Heap, k: Way, n: Node, name: Name)
    requires Around(h.cells, k, null, h.root) && WayTidy(k) && WayNodes(k) <= h.cells.Keys && Planted(h, h', k, n, name)
    ensures Around(h'.cells, k, n, h'.root)
  {
    hide Sub, Nodes, Tidy;
    var m, m' := h.cells, h'.cells;
    match k {
      case Top =>
      case InL(e, c, r, d, up) =>
        SubFrame(m, m', e.nd, r);
        SubFrame(m, m', null, d);
        AroundFrame(m, m', up, e.nd, h.root);
      case InR(e, c, l, d, up) =>
        SubFrame(m, m', e.nd, l);
        SubFrame(m, m', null, d);
        AroundFrame(m, m', up, e.nd, h.root);
      case InD(e, c, l, r, up) =>
        SubFrame(m, m', e.nd, l);
        SubFrame(m, m', e.nd, r);
        AroundFrame(m, m', up, e.nd, h.root);
    }
  }

  method Plant(tree: DomainTree, name: Name, parent: Node?, upNode: Node?, order: int, ghost k: Way)
    returns (node: Node)
    requires parent == Above(k) && upNode == Upper(k) && (parent != null ==> (order < 0 <==> k.InL?))
    requires parent != null ==> parent in tree.nodes
    requires upNode != null ==> upNode in tree.nodes
    modifies tree`root, tree`nodes, parent, upNode
    ensures fresh(node) && tree.nodes == old(tree.nodes) + {node}
    ensures Planted(old(tree.Now()), tree.Now(), k, node, name)
  {
    node := new Node(name);
    node.parent := parent;
    if parent == null {
      if upNode == null {
        tree.root := node;
      } else {
        upNode.down := node;
      }
      node.color := Black;
    } else if order < 0 {
      parent.left := node;
    } else {
      parent.right := node;
    }
    tree.nodes := tree.nodes + {node};
  }

  // ----- The place of a new name -----

  /** The label lies between the keys before and after the hole. */
  ghost predicate Between(k: Way, key: bytes) {
    && (forall i :: 0 <= i < |Before(k)| ==> LabelLess(Key(Before(k)[i].e), key))
    && (forall i :: 0 <= i < |After(k)| ==> LabelLess(key, Key(After(k)[i].e)))
  }

  lemma SortedMiddle(a: seq<Entry>, b: seq<Entry>, c: seq<Entry>)
    requires Sorted(a + b + c)
    ensures Sorted(b)
  {
    hide LabelLess, Key;
    var es := a + b + c;
    forall i, j | 0 <= i < j < |b|
      ensures LabelLess(Key(b[i].e), Key(b[j].e))
    {
      assert es[|a| + i] == b[i] && es[|a| + j] == b[j];
    }
  }

  lemma BetweenLeft(k: Way, t: Tree, key: bytes)
    requires t.N? && Sorted(Whole(k, t)) && Between(k, key) && LabelLess(key, Key(t.e))
    ensures Between(InL(t.e, t.c, t.r, t.d, k), key)
  {
    hide LabelLess, Key, Sorted, Entries;
    SortedMiddle(Before(k), Entries(t), After(k));
    SortedParts(t);
    var es, r := [Entry(t.e, t.d)] + Entries(t.r) + After(k), Entries(t.r);
    forall i | 0 <= i < |es|
      ensures LabelLess(key, Key(es[i].e))
    {
      if 0 < i <= |r| {
        LabelLessTrans(key, Key(t.e), Key(r[i - 1].e));
      }
    }
  }

  lemma BetweenRight(k: Way, t: Tree, key: bytes)
    requires t.N? && Sorted(Whole(k, t)) && Between(k, key) && LabelLess(Key(t.e), key)
    ensures Between(InR(t.e, t.c, t.l, t.d, k), key)
  {
    hide LabelLess, Key, Sorted, Entries;
    SortedMiddle(Before(k), Entries(t), After(k));
    SortedParts(t);
    var a, l := Before(k), Entries(t.l);
    var es := a + l + [Entry(t.e, t.d)];
    forall i | 0 <= i < |es|
      ensures LabelLess(Key(es[i].e), key)
    {
      if |a| <= i < |a| + |l| {
        LabelLessTrans(Key(l[i - |a|].e), Key(t.e), key);
      }
    }
  }

  lemma SortedInsert(a: seq<Entry>, x: Entry, b: seq<Entry>)
    requires Sorted(a + b)
    requires forall i :: 0 <= i < |a| ==> LabelLess(Key(a[i].e), Key(x.e))
    requires forall i :: 0 <= i < |b| ==> LabelLess(Key(x.e), Key(b[i].e))
    ensures Sorted(a + [x] + b)
  {
    hide LabelLess, Key;
    var es, ds := a + [x] + b, a + b;
    forall i, j | 0 <= i < j < |es|
      ensures LabelLess(Key(es[i].e), Key(es[j].e))
    {
      if i != |a| && j != |a| {
        var i', j' := if i < |a| then i else i - 1, if j < |a| then j else j - 1;
        assert es[i] == ds[i'] && es[j] == ds[j'];
      }
    }
  }

  /** A level with one more node in its place is well formed, and stores one more name. */
  lemma InsertedLevel(k: Way, x: Entry, t': Tree)
    requires Zone(All(k, Leaf)) && Base(k).InD? && Between(k, Key(x.e)) && GoodNode(x.e, x.d, Suffix(k))
    requires Entries(t') == Before(k) + [x] + After(k) && Balanced(t')
    ensures Level(t', Suffix(k)) && Zone(All(Base(k), t'))
  {
    hide GoodNode, Level, LabelLess, Key, Balanced, Before, After;
    var s, c := Suffix(k), Closed(k, Leaf);
    AllClosed(k, Leaf);
    ClosedEntries(k, Leaf);
    EntriesLeaf();
    assert Before(k) + [] + After(k) == Before(k) + After(k);
    ZoneLevel(Base(k), c);
    LevelGood(c, s);
    SortedInsert(Before(k), x, After(k));
    GoodEntries(c, s);
    GoodEntries(t', s);
    GoodAmong(Before(k), x, After(k), s);
    LevelMake(t', s);
    ReplaceLevel(Base(k), c, t');
  }

  lemma LevelMake(t: Tree, s: seq<Label>)
    requires Balanced(t) && Sorted(Entries(t)) && Good(t, s)
    ensures Level(t, s)
  {
  }

  lemma GoodAmong(a: seq<Entry>, x: Entry, b: seq<Entry>, s: seq<Label>)
    requires GoodNode(x.e, x.d, s)
    requires forall i :: 0 <= i < |a + b| ==> GoodNode((a + b)[i].e, (a + b)[i].d, s)
    ensures forall i :: 0 <= i < |a + [x] + b| ==> GoodNode((a + [x] + b)[i].e, (a + [x] + b)[i].d, s)
  {
    hide GoodNode;
    var es, ds := a + [x] + b, a + b;
    forall i | 0 <= i < |es|
      ensures GoodNode(es[i].e, es[i].d, s)
    {
      if i != |a| {
        assert es[i] == ds[if i < |a| then i else i - 1];
      }
    }
  }

  lemma InsertedFlat(k: Way, x: Entry, t': Tree)
    requires Entries(t') == Before(k) + [x] + After(k)
    ensures var a, b, s := FlatBefore(Base(k)) + FlatSeq(Before(k), Suffix(k)),
      FlatSeq(After(k), Suffix(k)) + FlatAfter(Base(k)), Suffix(k);
      && Flat(All(Base(k), t'), []) == a + FlatOne(x, s) + b
      && Flat(All(k, Leaf), []) == a + b
  {
    hide FlatSeq, Flat, FlatOne, Before, After, FlatBefore, FlatAfter, All;
    var s, c := Suffix(k), Closed(k, Leaf);
    AllClosed(k, Leaf);
    BaseTop(k);
    FlatWhole(Base(k), t');
    FlatWhole(Base(k), c);
    FlatOfEntries(t', s);
    FlatSeqConcat(Before(k) + [x], After(k), s);
    FlatSeqConcat(Before(k), [x], s);
    FlatSeqOne(x, s);
    ClosedEntries(k, Leaf);
    FlatOfEntries(c, s);
    EntriesLeaf();
    assert Before(k) + [] + After(k) == Before(k) + After(k);
    FlatSeqConcat(Before(k), After(k), s);
    Regrouped(FlatBefore(Base(k)), FlatSeq(Before(k), s), FlatOne(x, s), FlatSeq(After(k), s), FlatAfter(Base(k)));
  }

  lemma Regrouped(p: seq<Item>, q: seq<Item>, x: seq<Item>, y: seq<Item>, z: seq<Item>)
    ensures p + (q + x + y) + z == (p + q) + x + (y + z)
    ensures p + (q + y) + z == (p + q) + (y + z)
  {
  }

  lemma {:induction false} Locate(h: Heap, k0: Way, t: Tree, i: nat) returns (k: Way, s: Tree)
    requires Conf(h, k0, t) && i < |Entries(t)|
    ensures Conf(h, k, s) && All(k, s) == All(k0, t) && Suffix(k) == Suffix(k0) && s.N?
    ensures Entry(s.e, s.d) == Entries(t)[i]
    decreases t
  {
    hide Conf, Entries;
    if t.Leaf? {
      EntriesLeaf();
      assert false;
    }
    EntryOwn(t);
    var n := |Entries(t.l)|;
    if i < n {
      EntryLeft(t, i);
      ConfLeft(h, k0, t);
      k, s := Locate(h, InL(t.e, t.c, t.r, t.d, k0), t.l, i);
    } else if i == n {
      k, s := k0, t;
    } else {
      EntryRight(t, i - n - 1);
      ConfRight(h, k0, t);
      k, s := Locate(h, InR(t.e, t.c, t.l, t.d, k0), t.r, i - n - 1);
    }
  }

  /** A red leaf at the end of a balanced level. */
  lemma NewLeafLoose(k: Way, n: Node, name: Name, m: nat)
    requires Mended(k, Leaf, m)
    ensures Loose(k, NewLeaf(k, n, name), if Above(k) == null then 1 else 0)
  {
    assert m == 0;
    assert Even(Leaf, 0) && Calm(Leaf);
  }

  /** The new node enters its level, which is then balanced again. */
  method LinkNew(tree: DomainTree, name: Name, parent: Node?, upNode: Node?, order: int, ghost k: Way, ghost m: nat)
    returns (node: Node, ghost t': Tree)
    requires Conf(tree.Now(), k, Leaf) && Mended(k, Leaf, m)
    requires parent == Above(k) && upNode == Upper(k) && (parent != null ==> (order < 0 <==> k.InL?))
    modifies tree`root, tree`nodes, tree.nodes
    ensures fresh(node) && tree.nodes == old(tree.nodes) + {node} && Conf(tree.Now(), Base(k), t') && Balanced(t')
    ensures Entries(t') == Before(k) + [Entry(Info(node, name, NoData), Leaf)] + After(k)
  {
    hide Conf, Mended, Loose, Whole, Entries, Before, After, Base, Balanced;
    ghost var h := tree.Now();
    HoleIn(h, k);
    node := Plant(tree, name, parent, upNode, order, k);
    PlantedConf(h, tree.Now(), k, node, name);
    NewLeafLoose(k, node, name, m);
    t' := InsertRebalance(tree, upNode, node, k, NewLeaf(k, node, name), if Above(k) == null then 1 else 0);
    NewLeafWhole(k, node, name);
  }

  method PlaceNew(tree: DomainTree, name: Name, parent: Node?, upNode: Node?, order: int, ghost k0: Way, ghost m: nat)
    returns (node: Node, ghost k: Way, ghost t: Tree)
    requires TreeOk(tree) && Conf(tree.Now(), k0, Leaf) && All(k0, Leaf) == tree.shape && Mended(k0, Leaf, m)
    requires parent == Above(k0) && upNode == Upper(k0) && (parent != null ==> (order < 0 <==> k0.InL?))
    requires Valid(name) && FitsName(Labels(name) + Suffix(k0))
    requires if Base(k0).InD? then Labels(name) != [] && Between(k0, FromRight(Labels(name), 0)) else k0.Top?
    modifies tree, tree.nodes
    ensures TreeOk(tree) && fresh(tree.nodes - old(tree.nodes))
    ensures Conf(tree.Now(), k, t) && All(k, t) == tree.shape && t.N? && node == t.e.nd && t.e.data == NoData
    ensures NameOf(t.e) + Suffix(k) == Labels(name) + Suffix(k0)
    ensures Stored(tree) == old(Stored(tree))
  {
    hide Conf, Zone, Flat, Contents, Valid, Mended, Between, FitsName, Entries, Before, After, All, Suffix, Base,
      Balanced;
    assert Zone(tree.shape) && tree.nodeCount == |Flat(tree.shape, [])|;
    ghost var t';
    node, t' := LinkNew(tree, name, parent, upNode, order, k0, m);
    PlacedZone(k0, Entry(Info(node, name, NoData), Leaf), t', name);
    tree.nodeCount := tree.nodeCount + 1;
    tree.shape := All(Base(k0), t');
    TreeMake(tree, Base(k0), t');
    k, t := Locate(tree.Now(), Base(k0), t', |Before(k0)|);
    AllClosed(k0, Leaf);
  }

  lemma HoleIn(h: Heap, k: Way)
    requires Conf(h, k, Leaf)
    ensures Above(k) != null ==> Above(k) in h.cells
    ensures Upper(k) != null ==> Upper(k) in h.cells
  {
    UpperIn(h, k, null);
  }

  lemma NewLeafWhole(k: Way, n: Node, name: Name)
    ensures Whole(k, NewLeaf(k, n, name)) == Before(k) + [Entry(Info(n, name, NoData), Leaf)] + After(k)
  {
    assert Entries(Leaf) == [];
  }

  lemma PlacedZone(k: Way, x: Entry, t': Tree, name: Name)
    requires Zone(All(k, Leaf)) && Entries(t') == Before(k) + [x] + After(k) && Balanced(t')
    requires x.e.name == name && x.e.data == NoData && x.d == Leaf && Valid(name) && FitsName(Labels(name) + Suffix(k))
    requires if Base(k).InD? then Labels(name) != [] && Between(k, FromRight(Labels(name), 0)) else k.Top?
    ensures Zone(All(Base(k), t')) && |Before(k)| < |Entries(t')| && Entries(t')[|Before(k)|] == x
    ensures var xs, ys := Flat(All(k, Leaf), []), Flat(All(Base(k), t'), []);
      Contents(ys) == Contents(xs) && |ys| == |xs| + 1
  {
    hide Flat, Contents, Level, Between, Before, After, FitsName, Zone, Balanced, FlatBefore, FlatAfter, FlatSeq,
      Suffix;
    LeafLevel(Labels(name) + Suffix(k));
    if Base(k).InD? {
      assert GoodNode(x.e, x.d, Suffix(k));
      InsertedLevel(k, x, t');
    } else {
      PlacedTop(x, t');
    }
    InsertedFlat(k, x, t');
    var s := Suffix(k);
    var a, b := FlatBefore(Base(k)) + FlatSeq(Before(k), s), FlatSeq(After(k), s) + FlatAfter(Base(k));
    var i := Item(NameOf(x.e) + s, x.e.nd, x.e.data);
    LeafFlat(NameOf(x.e) + s);
    assert FlatOne(x, s) == [i];
    ContentsAround(a, i, b);
    ContentsConcat(a, b);
  }

  lemma LeafLevel(s: seq<Label>)
    ensures Level(Leaf, s)
  {
    assert Even(Leaf, 0);
    assert Entries(Leaf) == [];
  }

  lemma PlacedTop(x: Entry, t': Tree)
    requires Entries(t') == Before(Top) + [x] + After(Top) && Balanced(t') && Valid(x.e.name) && x.d.Leaf?
    ensures Zone(All(Top, t'))
  {
    assert |Entries(t')| == 1 && Entries(t')[0] == x;
    NoEntries(t');
    EntryOwn(t');
    NoEntries(t'.l);
    NoEntries(t'.r);
    LeafLevel(Labels(x.e.name));
  }

  // ----- The way down of an insertion -----

  /** The insertion of `f` has come to the hole of `k` in `shape`, with `q` left of the name. */
  ghost predicate Probing(shape: Tree, f: seq<Label>, k: Way, t: Tree, q: seq<Label>, n: nat, first: bool) {
    && All(k, t) == shape && Zone(shape) && SameLabels(q + Suffix(k), f) && Mended(k, t, n)
    && (if Base(k).InD? then q != [] && Between(k, FromRight(q, 0)) && !first else k.Top?)
    && (k.Top? && t.N? && !first ==> SameLabels(q, NameOf(t.e)) || Within(q, NameOf(t.e)))
  }

  lemma ProbeStart(shape: Tree, f: seq<Label>) returns (n: nat)
    requires Zone(shape)
    ensures Probing(shape, f, Top, shape, f, n, true)
  {
    n := if shape.Leaf? then 0 else 1;
    assert Even(Leaf, 0) && Calm(Leaf);
    assert f + [] == f;
    SameAsItself(f);
  }

  lemma LevelMended(k: Way, t: Tree, s: seq<Label>) returns (n: nat)
    requires Level(t, s) && k.InD?
    ensures Mended(k, t, n)
  {
    n :| Even(t, n);
  }

  lemma ProbeDown(shape: Tree, f: seq<Label>, k: Way, t: Tree, q: seq<Label>, n: nat, first: bool) returns (n': nat)
    requires Probing(shape, f, k, t, q, n, first) && t.N? && Within(q, NameOf(t.e))
    ensures |q| > |NameOf(t.e)| && (k.Top? || NameOf(t.e) != [])
    ensures Probing(shape, f, InD(t.e, t.c, t.l, t.r, k), t.d, q[..|q| - |NameOf(t.e)|], n', false)
  {
    hide *;
    var x, k' := NameOf(t.e), InD(t.e, t.c, t.l, t.r, k);
    ProbeFacts(shape, f, k, t, q, n, first);
    ZoneNode(k, t);
    GoodName(t, Suffix(k));
    WithinLonger(q, x);
    Remainder(q, x, Suffix(k), f);
    n' := LevelMended(k', t.d, x + Suffix(k));
    ProbeBelow(shape, f, k, t, q[..|q| - |x|], n');
  }

  lemma ProbeBelow(shape: Tree, f: seq<Label>, k: Way, t: Tree, q: seq<Label>, n: nat)
    requires t.N? && All(k, t) == shape && Zone(shape) && q != [] && SameLabels(q + (NameOf(t.e) + Suffix(k)), f)
    requires Mended(InD(t.e, t.c, t.l, t.r, k), t.d, n)
    ensures Probing(shape, f, InD(t.e, t.c, t.l, t.r, k), t.d, q, n, false)
  {
    hide Level, Mended, SameLabels, Zone;
  }

  lemma ProbeSide(shape: Tree, f: seq<Label>, k: Way, t: Tree, q: seq<Label>, n: nat)
    requires Probing(shape, f, k, t, q, n, false) && t.N?
    requires !SameLabels(q, NameOf(t.e)) && !Within(q, NameOf(t.e)) && !Meets(q, NameOf(t.e))
    ensures n >= Weight(t.c)
    ensures NameLess(q, NameOf(t.e)) ==> Probing(shape, f, InL(t.e, t.c, t.r, t.d, k), t.l, q, n - Weight(t.c), false)
    ensures !NameLess(q, NameOf(t.e)) ==> Probing(shape, f, InR(t.e, t.c, t.l, t.d, k), t.r, q, n - Weight(t.c), false)
  {
    hide Level, Mended, SameLabels, Zone, NameLess, Between, LabelLess, Sorted, Whole, Within;
    var x := NameOf(t.e);
    ZoneNode(k, t);
    GoodName(t, Suffix(k));
    MendedBelow(k, t, n);
    if NameLess(q, x) {
      LastLess(q, x);
      BetweenLeft(k, t, FromRight(q, 0));
    } else {
      NameTrichotomy(q, x);
      MeetsEither(q, x);
      LastLess(x, q);
      BetweenRight(k, t, FromRight(q, 0));
    }
  }

  lemma AllCommon(q: seq<Label>, x: seq<Label>)
    requires CommonCount(q, x, |x|)
    ensures SameLabels(q, x) || Within(q, x)
  {
    if |q| == |x| {
      forall i | 0 <= i < |q|
        ensures SameFold(q[i], x[i])
      {
        assert SameFold(FromRight(q, |q| - 1 - i), FromRight(x, |q| - 1 - i));
      }
    }
  }

  /** The common labels of a name and a node, as the name writes them. */
  lemma CommonBase(q: seq<Label>, x: seq<Label>, c: nat)
    requires CommonCount(q, x, c) && !SameLabels(q, x) && !Within(q, x)
    ensures c < |x| && SameLabels(q[|q| - c..], x[|x| - c..])
    ensures SameLabels(q, q[|q| - c..]) || Within(q, q[|q| - c..])
  {
    var b, y := q[|q| - c..], x[|x| - c..];
    forall i | 0 <= i < c
      ensures SameFold(b[i], y[i])
    {
      assert SameFold(FromRight(q, c - 1 - i), FromRight(x, c - 1 - i));
    }
    if c == |x| {
      AllCommon(q, x);
    }
    if c == |q| {
      assert b == q;
      SameAsItself(q);
    } else {
      assert forall j :: 0 <= j < c ==> FromRight(q, j) == FromRight(b, j);
    }
  }

  lemma ProbeFissioned(shape: Tree, shape': Tree, f: seq<Label>, k: Way, t: Tree, t': Tree, q: seq<Label>, n: nat,
                       first: bool)
    requires Probing(shape, f, k, t, q, n, first) && t.N?
    requires All(k, t') == shape' && Zone(shape') && t'.N? && t'.l == t.l && t'.r == t.r && t'.c == t.c
    requires SameLabels(q, NameOf(t'.e)) || Within(q, NameOf(t'.e))
    ensures Probing(shape', f, k, t', q, n, false)
  {
    hide SameLabels, Within, Zone, Between;
  }

  /** How far the insertion still has to go. */
  ghost function ToGo(q: seq<Label>, k: Way): nat {
    |q| + if k.Top? then 1 else 0
  }

  ghost function Unfit(q: seq<Label>, t: Tree): nat {
    if t.N? && !SameLabels(q, NameOf(t.e)) && !Within(q, NameOf(t.e)) then 1 else 0
  }

  /** The insertion of `f` is at the hole of `k`, `name` being left of it. */
  ghost predicate At(tree: DomainTree, f: seq<Label>, k: Way, t: Tree, name: Name, n: nat, first: bool)
    reads tree, tree.nodes
  {
    TreeOk(tree) && Conf(tree.Now(), k, t) && Valid(name) && Probing(tree.shape, f, k, t, Labels(name), n, first)
  }

  /** A node that shares only some labels with the name is split at them. */
  method MakeRoom(tree: DomainTree, name: Name, current: Node, comparison: Comparison, ghost f: seq<Label>,
                  ghost k: Way, ghost t: Tree, ghost n: nat, ghost first: bool)
    returns (ghost t': Tree)
    requires At(tree, f, k, t, name, n, first) && Valid(name) && t.N? && current == t.e.nd
    requires (comparison.commonLabelCount > 1 || first)
    requires Said(comparison, Labels(name), NameOf(t.e)) && comparison.relation != Equal
    requires comparison.relation != SubDomain
    modifies tree, current
    ensures At(tree, f, k, t', name, n, false) && t'.N? && t'.e.nd == current && fresh(tree.nodes - old(tree.nodes))
    ensures Unfit(Labels(name), t') < Unfit(Labels(name), t) && |Entries(t')| == |Entries(t)|
    ensures Stored(tree) == old(Stored(tree))
  {
    hide Conf, Zone, Flat, Contents, Valid, SameLabels, Within, All, Between, Mended, NameLess;
    ghost var q, x := Labels(name), NameOf(t.e);
    CommonBase(q, x, comparison.commonLabelCount - 1);
    ProbeFacts(tree.shape, f, k, t, q, n, first);
    DepthBound(q);
    var part := Split(name, |name.offsets| - comparison.commonLabelCount, comparison.commonLabelCount);
    ghost var c := comparison.commonLabelCount - 1;
    assert q[|q| - c..|q|] == q[|q| - c..] && NameOf(Info(current, part.name, NoData)) == q[|q| - c..];
    t' := NodeFission(tree, current, part.name, k, t);
    ProbeFissioned(old(tree.shape), tree.shape, f, k, t, t', q, n, first);
  }

  lemma ProbeFacts(shape: Tree, f: seq<Label>, k: Way, t: Tree, q: seq<Label>, n: nat, first: bool)
    requires Probing(shape, f, k, t, q, n, first)
    ensures All(k, t) == shape && Zone(shape) && (first ==> k.Top?) && Mended(k, t, n) && SameLabels(q + Suffix(k), f)
    ensures if Base(k).InD? then q != [] && Between(k, FromRight(q, 0)) else k.Top?
  {
  }

  /** A tree into which the root name can go without harm: none of its nodes changes level. */
  ghost predicate TakesRoot(t: Tree) {
    t.Leaf? || NameOf(t.e) == []
  }

  /** A tree that takes a name without harm, which every tree does but for the root name. */
  ghost predicate Takes(t: Tree, name: Name)
    requires Valid(name)
  {
    Labels(name) == [] ==> TakesRoot(t)
  }

  /** The pointers of the loop agree with the place that it has come to. */
  ghost predicate Linked(k: Way, t: Tree, current: Node?, parent: Node?, upNode: Node?, order: int) {
    current == Ref(t) && parent == Above(k) && upNode == Upper(k) && (parent != null ==> (order < 0 <==> k.InL?))
  }

  /** The way down to the node of a name, or to the place for a new one. */
  method FindPlace(tree: DomainTree, name: Name)
    returns (found: Node?, name': Name, parent: Node?, upNode: Node?, order: int, ghost k: Way, ghost t: Tree,
             ghost n: nat)
    requires TreeOk(tree) && Valid(name)
    modifies tree, tree.nodes
    ensures fresh(tree.nodes - old(tree.nodes)) && At(tree, Labels(name), k, t, name', n, false)
    ensures Linked(k, t, found, parent, upNode, order)
    ensures found != null ==> Named(name', t)
    ensures Stored(tree) == old(Stored(tree))
  {
    hide *;
    ghost var f, stored := Labels(name), Stored(tree);
    parent, upNode, name', order := null, null, name, -1;
    var firstCompare, same := true, false;
    found, k, t := tree.root, Top, tree.shape;
    n := AtStart(tree, name);
    LinkedStart(tree);
    while found != null && !same
      invariant fresh(tree.nodes - old(tree.nodes)) && Stored(tree) == stored
      invariant At(tree, f, k, t, name', n, firstCompare) && Linked(k, t, found, parent, upNode, order)
      invariant same ==> !firstCompare && Named(name', t)
      decreases !same, ToGo(LabelsOf(name'), k), |Entries(t)|, Unfit(LabelsOf(name'), t)
    {
      ghost var q0, k0, t0 := LabelsOf(name'), k, t;
      same, name', found, parent, upNode, order, k, t, n :=
        Step(tree, name', found, parent, upNode, order, firstCompare, f, k, t, n);
      SoonerMeans(LabelsOf(name'), k, t, q0, k0, t0, same);
      firstCompare := false;
    }
    if !same {
      AtEmpty(tree, f, k, t, name', n, firstCompare, found, parent, upNode, order);
    }
  }

  lemma LinkedStart(tree: DomainTree)
    requires TreeOk(tree)
    ensures Linked(Top, tree.shape, tree.root, null, null, -1)
  {
    hide Zone, Flat;
  }

  lemma SoonerMeans(q': seq<Label>, k': Way, t': Tree, q: seq<Label>, k: Way, t: Tree, same: bool)
    requires same || Sooner(q', k', t', q, k, t)
    ensures || same || ToGo(q', k') < ToGo(q, k)
            || (ToGo(q', k') == ToGo(q, k) && |Entries(t')| < |Entries(t)|)
            || (ToGo(q', k') == ToGo(q, k) && |Entries(t')| == |Entries(t)| && Unfit(q', t') < Unfit(q, t))
  {
  }

  /** The node in the hole has the name that is left. */
  ghost predicate Named(name: Name, t: Tree) {
    t.N? && SameLabels(LabelsOf(name), NameOf(t.e))
  }

  lemma AtEmpty(tree: DomainTree, f: seq<Label>, k: Way, t: Tree, name: Name, n: nat, first: bool,
                current: Node?, parent: Node?, upNode: Node?, order: int)
    requires At(tree, f, k, t, name, n, first) && Linked(k, t, current, parent, upNode, order) && current == null
    ensures At(tree, f, k, t, name, n, false)
  {
    AtLater(tree, f, k, t, name, n, first);
  }

  ghost function LabelsOf(n: Name): seq<Label> {
    if Valid(n) then Labels(n) else []
  }

  lemma AtValid(tree: DomainTree, f: seq<Label>, k: Way, t: Tree, name: Name, n: nat, first: bool)
    requires At(tree, f, k, t, name, n, first)
    ensures Valid(name)
  {
  }

  /** One round of the loop: `same` tells that the node of the name has been reached. */
  method Step(tree: DomainTree, name: Name, current: Node, parent: Node?, upNode: Node?, order: int, firstCompare: bool,
              ghost f: seq<Label>, ghost k: Way, ghost t: Tree, ghost n: nat)
    returns (same: bool, name': Name, current': Node?, parent': Node?, upNode': Node?, order': int,
             ghost k': Way, ghost t': Tree, ghost n': nat)
    requires At(tree, f, k, t, name, n, firstCompare) && Linked(k, t, current, parent, upNode, order)
    modifies tree, tree.nodes
    ensures fresh(tree.nodes - old(tree.nodes)) && At(tree, f, k', t', name', n', false)
    ensures Linked(k', t', current', parent', upNode', order')
    ensures Stored(tree) == old(Stored(tree))
    ensures same ==> Named(name', t')
    ensures !same ==> Sooner(LabelsOf(name'), k', t', LabelsOf(name), k, t)
  {
    hide Flat, Contents, Valid, SameLabels, NameOf, Said, Upper, At, Entries, Unfit, ToGo, FitsName, FromLabels;
    AtValid(tree, f, k, t, name, n, firstCompare);
    same, name', current', parent', upNode', order', k', t', n' := false, name, current, parent, upNode, order, k, t, n;
    var comparison := CompareAt(tree, name, current, f, k, t, n, firstCompare);
    if comparison.relation == Equal {
      SaidEqual(comparison, Labels(name), NameOf(t.e));
      AtLater(tree, f, k, t, name, n, firstCompare);
      same := true;
    } else if comparison.relation == SubDomain {
      parent', upNode' := null, current;
      name', current', k', t', n' := GoBelow(tree, name, current, comparison, f, k, t, n, firstCompare);
    } else if comparison.commonLabelCount > 1 || firstCompare {
      t' := MakeRoom(tree, name, current, comparison, f, k, t, n, firstCompare);
    } else {
      parent', order' := current, comparison.order;
      current', k', t', n' := GoBeside(tree, name, current, comparison, f, k, t, n);
    }
  }

  /** There is less to do at one place of an insertion than at another. */
  ghost predicate Sooner(q': seq<Label>, k': Way, t': Tree, q: seq<Label>, k: Way, t: Tree) {
    || ToGo(q', k') < ToGo(q, k)
    || (ToGo(q', k') == ToGo(q, k) && |Entries(t')| < |Entries(t)|)
    || (ToGo(q', k') == ToGo(q, k) && |Entries(t')| == |Entries(t)| && Unfit(q', t') < Unfit(q, t))
  }

  lemma AtStart(tree: DomainTree, name: Name) returns (n: nat)
    requires TreeOk(tree) && Valid(name)
    ensures tree.root == Ref(tree.shape) && At(tree, Labels(name), Top, tree.shape, name, n, true)
  {
    hide Zone, Flat, Probing;
    n := ProbeStart(tree.shape, Labels(name));
  }

  lemma AtLater(tree: DomainTree, f: seq<Label>, k: Way, t: Tree, name: Name, n: nat, first: bool)
    requires At(tree, f, k, t, name, n, first) && Valid(name) && (t.N? ==> SameLabels(Labels(name), NameOf(t.e)))
    ensures At(tree, f, k, t, name, n, false)
  {
    hide TreeOk, Conf, Zone, Mended, Between;
  }

  method CompareAt(tree: DomainTree, name: Name, current: Node, ghost f: seq<Label>, ghost k: Way, ghost t: Tree,
                   ghost n: nat, ghost first: bool)
    returns (c: Comparison)
    requires At(tree, f, k, t, name, n, first) && t.N? && current == t.e.nd && Valid(name)
    ensures current in tree.nodes && Valid(current.name) && Labels(current.name) == NameOf(t.e)
    ensures current.left == Ref(t.l) && current.right == Ref(t.r) && current.down == Ref(t.d)
    ensures Said(c, Labels(name), NameOf(t.e))
  {
    hide Conf, Zone, Valid, SameLabels, Within, Mended, Between, All, Said;
    c := CompareWith(tree, name, current, k, t);
  }

  /** On to the level below a node. */
  method GoBelow(tree: DomainTree, name: Name, current: Node, comparison: Comparison, ghost f: seq<Label>,
                 ghost k: Way, ghost t: Tree, ghost n: nat, ghost first: bool)
    returns (name': Name, current': Node?, ghost k': Way, ghost t': Tree, ghost n': nat)
    requires At(tree, f, k, t, name, n, first) && Valid(name) && t.N? && current == t.e.nd && current in tree.nodes
    requires Valid(current.name) && Labels(current.name) == NameOf(t.e) && current.down == Ref(t.d)
    requires Said(comparison, Labels(name), NameOf(t.e)) && comparison.relation == SubDomain
    ensures At(tree, f, k', t', name', n', false) && Valid(name') && current' == Ref(t')
    ensures Above(k') == null && Upper(k') == current && ToGo(Labels(name'), k') < ToGo(Labels(name), k)
  {
    hide Conf, Zone, Valid, SameLabels, Within, Probing, Said, TreeOk;
    SaidBelow(comparison, Labels(name), NameOf(t.e));
    n' := ProbeDown(tree.shape, f, k, t, Labels(name), n, first);
    ConfDown(tree.Now(), k, t);
    WayBelow(k, t);
    var rest := Subtract(name, current.name);
    name', current' := rest.name, current.down;
    k', t' := InD(t.e, t.c, t.l, t.r, k), t.d;
  }

  /** On to one side of a node. */
  method GoBeside(tree: DomainTree, name: Name, current: Node, comparison: Comparison, ghost f: seq<Label>,
                  ghost k: Way, ghost t: Tree, ghost n: nat)
    returns (current': Node?, ghost k': Way, ghost t': Tree, ghost n': nat)
    requires At(tree, f, k, t, name, n, false) && Valid(name) && t.N? && current == t.e.nd && current in tree.nodes
    requires current.left == Ref(t.l) && current.right == Ref(t.r)
    requires Said(comparison, Labels(name), NameOf(t.e)) && comparison.relation != SubDomain
    requires comparison.relation != Equal
    requires comparison.commonLabelCount <= 1
    ensures At(tree, f, k', t', name, n', false) && current' == Ref(t')
    ensures Above(k') == current && Upper(k') == Upper(k) && (comparison.order < 0 <==> k'.InL?)
    ensures ToGo(Labels(name), k') <= ToGo(Labels(name), k) && |Entries(t')| < |Entries(t)|
  {
    hide Conf, Zone, Valid, SameLabels, Within, Meets, NameLess, Probing, Said, TreeOk;
    SaidBeside(comparison, Labels(name), NameOf(t.e));
    ProbeSide(tree.shape, f, k, t, Labels(name), n);
    WayBeside(k, t);
    n' := n - Weight(t.c);
    if comparison.order < 0 {
      ConfLeft(tree.Now(), k, t);
      current', k', t' := current.left, InL(t.e, t.c, t.r, t.d, k), t.l;
    } else {
      ConfRight(tree.Now(), k, t);
      current', k', t' := current.right, InR(t.e, t.c, t.l, t.d, k), t.r;
    }
  }

  lemma SaidEqual(r: Comparison, q: seq<Label>, x: seq<Label>)
    requires Said(r, q, x) && r.relation == Equal
    ensures SameLabels(q, x)
  {
  }

  lemma SaidBelow(r: Comparison, q: seq<Label>, x: seq<Label>)
    requires Said(r, q, x) && r.relation == SubDomain
    ensures Within(q, x)
  {
  }

  lemma SaidBeside(r: Comparison, q: seq<Label>, x: seq<Label>)
    requires Said(r, q, x) && r.relation != SubDomain && r.relation != Equal && r.commonLabelCount <= 1
    ensures !SameLabels(q, x) && !Within(q, x) && !Meets(q, x) && (r.order < 0 <==> NameLess(q, x))
  {
    if x == [] {
      EmptyAbove(q);
    }
  }

  lemma EmptyAbove(q: seq<Label>)
    ensures SameLabels(q, []) || Within(q, [])
  {
  }

  lemma WayBelow(k: Way, t: Tree)
    requires t.N?
    ensures var k' := InD(t.e, t.c, t.l, t.r, k); Above(k') == null && Upper(k') == t.e.nd && !k'.Top?
  {
  }

  lemma WayBeside(k: Way, t: Tree)
    requires t.N?
    ensures Upper(InL(t.e, t.c, t.r, t.d, k)) == Upper(k) && Upper(InR(t.e, t.c, t.l, t.d, k)) == Upper(k)
    ensures |Entries(t.l)| < |Entries(t)| && |Entries(t.r)| < |Entries(t)|
  {
  }

  lemma ProbeEnd(shape: Tree, f: seq<Label>, k: Way, q: seq<Label>, n: nat, first: bool)
    requires Probing(shape, f, k, Leaf, q, n, first) && FitsName(f)
    ensures All(k, Leaf) == shape && Mended(k, Leaf, n) && SameLabels(q + Suffix(k), f) && FitsName(q + Suffix(k))
    ensures if Base(k).InD? then q != [] && Between(k, FromRight(q, 0)) else k.Top?
  {
    FitsFold(q + Suffix(k), f);
  }

  // ----- Insertion -----

  /**
    * The node of a name, new or not; what the tree stores does not change. The root name is
    * fit only for an empty tree or one that has it already: above any other top it leaves links
    * that are those of no tree.
    */
  method Insert(tree: DomainTree, name: Name) returns (node: Node, exists_: bool, ghost k: Way, ghost t: Tree)
    requires TreeOk(tree) && Valid(name)
    modifies tree, tree.nodes
    ensures fresh(tree.nodes - old(tree.nodes)) && node in tree.nodes
    ensures old(Takes(tree.shape, name)) ==> TreeOk(tree) && Stored(tree) == old(Stored(tree))
    ensures old(Takes(tree.shape, name)) ==>
      && Conf(tree.Now(), k, t) && All(k, t) == tree.shape && t.N? && node == t.e.nd
      && SameLabels(NameOf(t.e) + Suffix(k), Labels(name))
    ensures Labels(name) != [] ==> t.N? && exists_ == t.e.data.Data?
    ensures old(!Takes(tree.shape, name)) ==>
      old(tree.root) != null && RootAdded(old(tree.Now()), tree.Now(), node, old(tree.root), NoData)
  {
    hide *;
    RootOnly(name);
    TakesIs(tree.shape, name);
    if |name.offsets| == 1 {
      node, k, t := InsertRoot(tree);
      exists_ := false;
      if old(TakesRoot(tree.shape)) {
        RootNamed(k, t, name);
      }
      return;
    }
    var found, name', parent, upNode, order;
    ghost var n;
    found, name', parent, upNode, order, k, t, n := FindPlace(tree, name);
    if found != null {
      FoundFacts(tree, Labels(name), k, t, name', n, found, parent, upNode, order);
      node, exists_ := found, found.data.Data?;
    } else {
      PlaceFacts(tree, Labels(name), k, t, name', n, found, parent, upNode, order);
      ghost var k0 := k;
      node, k, t := PlaceNew(tree, name', parent, upNode, order, k0, n);
      exists_ := false;
      NodeWithin(tree, k, t);
    }
  }

  lemma TakesIs(t: Tree, name: Name)
    requires Valid(name)
    ensures Takes(t, name) <==> Labels(name) != [] || TakesRoot(t)
  {
  }

  lemma NodeWithin(tree: DomainTree, k: Way, t: Tree)
    requires Conf(tree.Now(), k, t) && t.N?
    ensures t.e.nd in tree.nodes
  {
    ConfCell(tree.Now(), k, t);
  }

  lemma FoundFacts(tree: DomainTree, f: seq<Label>, k: Way, t: Tree, name: Name, n: nat,
                   current: Node?, parent: Node?, upNode: Node?, order: int)
    requires At(tree, f, k, t, name, n, false) && Linked(k, t, current, parent, upNode, order) && current != null
    requires Named(name, t)
    ensures TreeOk(tree) && Conf(tree.Now(), k, t) && All(k, t) == tree.shape && t.N? && current == t.e.nd
    ensures SameLabels(NameOf(t.e) + Suffix(k), f) && current in tree.nodes && current.data == t.e.data
  {
    hide Conf, Zone, SameLabels, TreeOk, Mended, Between, All, Suffix, Base;
    ProbeFacts(tree.shape, f, k, t, Labels(name), n, false);
    SameAround(Labels(name), NameOf(t.e), Suffix(k), f);
    ConfCell(tree.Now(), k, t);
  }

  lemma PlaceFacts(tree: DomainTree, f: seq<Label>, k: Way, t: Tree, name: Name, n: nat,
                   current: Node?, parent: Node?, upNode: Node?, order: int)
    requires At(tree, f, k, t, name, n, false) && Linked(k, t, current, parent, upNode, order) && current == null
    requires FitsName(f)
    ensures t == Leaf && TreeOk(tree) && Conf(tree.Now(), k, Leaf) && All(k, Leaf) == tree.shape && Mended(k, Leaf, n)
    ensures parent == Above(k) && upNode == Upper(k) && (parent != null ==> (order < 0 <==> k.InL?))
    ensures Valid(name) && FitsName(Labels(name) + Suffix(k)) && SameLabels(Labels(name) + Suffix(k), f)
    ensures if Base(k).InD? then Labels(name) != [] && Between(k, FromRight(Labels(name), 0)) else k.Top?
  {
    hide Conf, Zone, SameLabels, TreeOk, Mended, Between, All, Suffix, Base;
    ProbeEnd(tree.shape, f, k, Labels(name), n, false);
  }

  lemma RootOnly(name: Name)
    requires Valid(name)
    ensures |name.offsets| == 1 <==> Labels(name) == []
  {
  }

  lemma RootNamed(k: Way, t: Tree, name: Name)
    requires Valid(name) && |name.offsets| == 1 && k.Top? && t.N? && NameOf(t.e) == []
    ensures SameLabels(NameOf(t.e) + Suffix(k), Labels(name)) && Labels(name) == []
  {
  }

  function RootName(): (r: Name)
    ensures Valid(r) && Labels(r) == []
  {
    LabelsOfEncoding([]);
    FromLabels([])
  }

  /** The links after the root name has been put above the top of the tree. */
  ghost predicate RootAdded(h: Heap, h': Heap, n: Node, current: Node?, data: Data) {
    && n !in h.cells && h'.root == n && Holds(h'.cells, n, Cell(null, null, null, current, Black, RootName(), data))
    && SameOn(h.cells, h'.cells, h.cells.Keys - {current})
    && (current != null ==>
          current in h.cells && Holds(h'.cells, current, h.cells[current].(parent := n, color := Black)))
  }

  method AddRoot(tree: DomainTree, current: Node?) returns (node: Node)
    requires current != null ==> current in tree.nodes
    modifies tree`root, tree`nodes, tree`nodeCount, current
    ensures fresh(node) && tree.nodes == old(tree.nodes) + {node} && tree.nodeCount == old(tree.nodeCount) + 1
    ensures RootAdded(old(tree.Now()), tree.Now(), node, current, NoData)
  {
    node := new Node(RootName());
    node.color := Black;
    node.down := current;
    if current != null {
      current.parent := node;
      current.color := Black;
    }
    tree.root := node;
    tree.nodeCount := tree.nodeCount + 1;
    tree.nodes := tree.nodes + {node};
  }

  /**
    * `insertRoot` leaves a well-formed tree exactly when the tree was empty or has the root
    * name at its top already. Otherwise the old top gets a parent outside of its level.
    */
  method InsertRoot(tree: DomainTree) returns (node: Node, ghost k: Way, ghost t: Tree)
    requires TreeOk(tree)
    modifies tree, tree.nodes
    ensures fresh(tree.nodes - old(tree.nodes)) && node in tree.nodes
    ensures old(TakesRoot(tree.shape)) ==> TreeOk(tree) && Stored(tree) == old(Stored(tree))
    ensures old(TakesRoot(tree.shape)) ==>
      Conf(tree.Now(), k, t) && All(k, t) == tree.shape && t.N? && node == t.e.nd && k.Top? && NameOf(t.e) == []
    ensures old(!TakesRoot(tree.shape)) ==>
      old(tree.root) != null && RootAdded(old(tree.Now()), tree.Now(), node, old(tree.root), NoData)
  {
    hide *;
    RootTop(tree);
    k, t := Top, tree.shape;
    var current := tree.root;
    if current != null && |current.name.offsets| == 1 {
      return current, k, t;
    }
    ghost var h := tree.Now();
    node := AddRoot(tree, current);
    if current == null {
      ghost var leaf := NewLeaf(Top, node, RootName());
      RootPlaced(tree, h, node);
      tree.shape := leaf;
      TreeMake(tree, Top, leaf);
      t := leaf;
    }
  }

  lemma RootTop(tree: DomainTree)
    requires TreeOk(tree)
    ensures Conf(tree.Now(), Top, tree.shape) && All(Top, tree.shape) == tree.shape && Zone(tree.shape)
    ensures tree.root == Ref(tree.shape) && tree.nodeCount == |Flat(tree.shape, [])|
    ensures Stored(tree) == Contents(Flat(tree.shape, [])) && (tree.root == null ==> tree.shape == Leaf)
    ensures tree.root != null ==>
      && tree.shape.N? && tree.root == tree.shape.e.nd && tree.root in tree.nodes && tree.root.name == tree.shape.e.name
      && Valid(tree.root.name) && NameOf(tree.shape.e) == Labels(tree.root.name)
    ensures TakesRoot(tree.shape) <==> tree.root == null || Labels(tree.root.name) == []
  {
    hide Level, Flat, Contents;
    if tree.shape.N? {
      ConfCell(tree.Now(), Top, tree.shape);
    }
  }

  lemma RootPlaced(tree: DomainTree, h: Heap, n: Node)
    requires Conf(h, Top, Leaf) && RootAdded(h, tree.Now(), n, null, NoData)
    ensures var leaf := NewLeaf(Top, n, RootName());
      && Conf(tree.Now(), Top, leaf) && All(Top, leaf) == leaf && Zone(leaf) && leaf.N? && leaf.e.nd == n
      && NameOf(leaf.e) == []
      && |Flat(leaf, [])| == |Flat(Leaf, [])| + 1 && Contents(Flat(leaf, [])) == Contents(Flat(Leaf, []))
  {
    PlantedConf(h, tree.Now(), Top, n, RootName());
    LeafLevel([]);
    assert Flat(Leaf, []) == [];
    assert Flat(NewLeaf(Top, n, RootName()), []) == [Item([] + [], n, NoData)];
    ContentsOne(Item([] + [], n, NoData));
  }

  /** No tree has the links that `insertRoot` leaves above a top that is not the root name. */
  lemma RootBreaks(h: Heap, h': Heap, n: Node, current: Node, data: Data, s: Tree)
    requires RootAdded(h, h', n, current, data)
    ensures !Conf(h', Top, s)
  {
    if Conf(h', Top, s) {
      ConfCell(h', Top, s);
      ConfDown(h', Top, s);
      ConfCell(h', InD(s.e, s.c, s.l, s.r, Top), s.d);
    }
  }
}
