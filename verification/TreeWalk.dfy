/** `successor` of `g53/domaintree/node.go` and `nextNode` of `g53/domaintree/domaintree.go`. */
module TreeWalk {
  import opened Octets
  import opened Names
  import opened NameOrder
  import opened Trees
  import opened RedBlack
  import opened InsertBalance
  import opened Zones
  import opened ZoneContents
  import opened TreeSearch
  import opened TreeInsert
  import opened TreeMap
  import opened TreeRemove

  /** The items up to a node and through the level that it holds. */
  ghost function Passed(k: Way, t: Tree): seq<Item>
    requires t.N?
  {
    FlatBefore(k) + Flat(t.l, Suffix(k)) + FlatOne(Entry(t.e, t.d), Suffix(k))
  }

  /** The items up to and with the tree in the hole. */
  ghost function Through(k: Way, t: Tree): seq<Item> {
    FlatBefore(k) + Flat(t, Suffix(k))
  }

  lemma PassedLast(k: Way, t: Tree)
    requires t.N? && t.r.Leaf?
    ensures Through(k, t) == Passed(k, t)
  {
    LeafFlat(Suffix(k));
    assert FlatBefore(k) + (Flat(t.l, Suffix(k)) + FlatOne(Entry(t.e, t.d), Suffix(k)) + []) == Passed(k, t);
  }

  lemma PassedRight(k: Way, t: Tree)
    requires t.N?
    ensures FlatBefore(InR(t.e, t.c, t.l, t.d, k)) == Passed(k, t)
  {
  }

  lemma ThroughRight(k: Way, t: Tree)
    requires k.InR?
    ensures Through(k, t) == Through(k.up, Fill(k, t))
  {
    var s := Suffix(k);
    ItemAssoc(FlatBefore(k.up), Flat(k.l, s), FlatOne(Entry(k.e, k.d), s), Flat(t, s));
    ItemAssoc(Flat(k.l, s), FlatOne(Entry(k.e, k.d), s), Flat(t, s), []);
  }

  lemma ThroughLeft(k: Way, t: Tree)
    requires k.InL?
    ensures Through(k, t) == ItemsBefore(k.up, Fill(k, t))
  {
  }

  lemma ThroughBelow(k: Way, t: Tree)
    requires k.InD?
    ensures Through(k, t) == Passed(k.up, Fill(k, t))
  {
    var s := Suffix(k.up);
    ItemAssoc(FlatBefore(k.up), Flat(k.l, s), [Item(NameOf(k.e) + s, k.e.nd, k.e.data)], Flat(t, NameOf(k.e) + s));
  }

  /** The first node of a tree, at its place. */
  method LeftMost(tree: DomainTree, node: Node, ghost k: Way, ghost t: Tree)
    returns (w: Node, ghost k': Way, ghost t': Tree)
    requires Conf(tree.Now(), k, t) && t.N? && node == t.e.nd
    ensures Conf(tree.Now(), k', t') && t'.N? && w == t'.e.nd && All(k', t') == All(k, t) && Chain(k') == Chain(k)
    ensures ItemsBefore(k', t') == FlatBefore(k) && Base(k') == Base(k)
  {
    hide *;
    w, k', t' := node, k, t;
    CellLinks(tree, k', t');
    RefIs(t'.l);
    while w.left != null
      invariant Conf(tree.Now(), k', t') && t'.N? && w == t'.e.nd && All(k', t') == All(k, t) && Chain(k') == Chain(k)
      invariant FlatBefore(k') == FlatBefore(k) && Base(k') == Base(k) && w in tree.nodes && w.left == Ref(t'.l)
      decreases t'
    {
      RefIs(t'.l);
      ConfLeft(tree.Now(), k', t');
      GoLeft(k', t');
      w, k', t' := w.left, InL(t'.e, t'.c, t'.r, t'.d, k'), t'.l;
      CellLinks(tree, k', t');
    }
    RefIs(t'.l);
    LeafFlat(Suffix(k'));
    NothingLeft(k', t');
  }

  lemma CellLinks(tree: DomainTree, k: Way, t: Tree)
    requires Conf(tree.Now(), k, t) && t.N?
    ensures t.e.nd in tree.nodes && t.e.nd.left == Ref(t.l) && t.e.nd.right == Ref(t.r) && t.e.nd.down == Ref(t.d)
    ensures t.e.nd.parent == Above(k)
  {
    hide Conf;
    ConfCell(tree.Now(), k, t);
  }

  lemma GoLeft(k: Way, t: Tree)
    requires t.N?
    ensures var k' := InL(t.e, t.c, t.r, t.d, k);
      All(k', t.l) == All(k, t) && Chain(k') == Chain(k) && FlatBefore(k') == FlatBefore(k) && Base(k') == Base(k)
  {
  }

  lemma NothingLeft(k: Way, t: Tree)
    requires t.N? && t.l.Leaf?
    ensures ItemsBefore(k, t) == FlatBefore(k)
  {
    assert FlatBefore(k) + [] == FlatBefore(k);
  }

  /** The next node of the same level, or null after the last. */
  method Successor(tree: DomainTree, node: Node, ghost k: Way, ghost t: Tree)
    returns (next: Node?, ghost k': Way, ghost t': Tree)
    requires Conf(tree.Now(), k, t) && t.N? && node == t.e.nd
    ensures Conf(tree.Now(), k', t') && All(k', t') == All(k, t) && Chain(k') == Chain(k)
    ensures next != null ==> t'.N? && next == t'.e.nd && ItemsBefore(k', t') == Passed(k, t)
    ensures next == null ==> k' == Base(k) && Through(k', t') == Passed(k, t)
  {
    hide *;
    CellLinks(tree, k, t);
    RefIs(t.r);
    if node.right != null {
      ConfRight(tree.Now(), k, t);
      GoRight(k, t);
      next, k', t' := LeftMost(tree, node.right, InR(t.e, t.c, t.l, t.d, k), t.r);
      PassedRight(k, t);
      return;
    }
    PassedLast(k, t);
    var current: Node := node;
    k', t' := k, t;
    var parent := current.parent;
    AboveIs(tree, k', t');
    while parent != null && current == parent.right
      invariant Conf(tree.Now(), k', t') && t'.N? && current == t'.e.nd && parent == Above(k')
      invariant All(k', t') == All(k, t) && Chain(k') == Chain(k) && Base(k') == Base(k)
      invariant Through(k', t') == Passed(k, t)
      invariant parent != null ==>
        parent in tree.nodes && (k'.InL? || k'.InR?) && parent == k'.e.nd && (parent.right == current <==> k'.InR?)
      invariant parent == null ==> k' == Base(k')
      decreases Depth(k')
    {
      ConfUp(tree.Now(), k', t');
      GoUp(k', t');
      ThroughRight(k', t');
      current, t', k' := parent, Fill(k', t'), k'.up;
      CellLinks(tree, k', t');
      parent := parent.parent;
      AboveIs(tree, k', t');
    }
    if parent != null {
      ConfUp(tree.Now(), k', t');
      GoUp(k', t');
      ThroughLeft(k', t');
      t', k' := Fill(k', t'), k'.up;
    }
    next := parent;
  }

  lemma GoRight(k: Way, t: Tree)
    requires t.N?
    ensures var k' := InR(t.e, t.c, t.l, t.d, k);
      All(k', t.r) == All(k, t) && Chain(k') == Chain(k) && Base(k') == Base(k)
  {
  }

  lemma GoUp(k: Way, t: Tree)
    requires k.InL? || k.InR?
    ensures All(k.up, Fill(k, t)) == All(k, t) && Chain(k.up) == Chain(k) && Base(k.up) == Base(k)
    ensures Depth(k.up) < Depth(k)
  {
  }

  lemma AboveIs(tree: DomainTree, k: Way, t: Tree)
    requires Conf(tree.Now(), k, t) && t.N?
    ensures Above(k) != null ==>
      && (k.InL? || k.InR?) && Above(k) == k.e.nd && Above(k) in tree.nodes
      && (Above(k).right == t.e.nd <==> k.InR?)
    ensures Above(k) == null ==> k == Base(k)
  {
    hide Conf;
    if Above(k) != null {
      Side(tree.Now(), k, t);
    }
  }

  lemma BelowFirst(k: Way, t: Tree)
    requires t.N?
    ensures var k' := InD(t.e, t.c, t.l, t.r, k);
      && FlatBefore(k') == ItemsBefore(k, t) + [OwnItem(k, t)] && Chain(k') == Chain(k) + [t.e.nd]
      && All(k', t.d) == All(k, t)
  {
  }

  lemma NothingBelow(k: Way, t: Tree)
    requires t.N? && t.d.Leaf?
    ensures Passed(k, t) == ItemsBefore(k, t) + [OwnItem(k, t)]
  {
    LeafFlat(NameOf(t.e) + Suffix(k));
    assert FlatOne(Entry(t.e, t.d), Suffix(k)) == [OwnItem(k, t)];
  }

  /** At the end of a level: the node that holds it, if there is one, has been passed with it. */
  lemma LevelEnd(tree: DomainTree, b: Way, t: Tree)
    requires Conf(tree.Now(), b, t) && (b.Top? || b.InD?)
    ensures b.Top? ==> Chain(b) == [] && Flat(All(b, t), []) == Through(b, t)
    ensures b.InD? ==>
      && Chain(b) == Chain(b.up) + [b.e.nd] && Conf(tree.Now(), b.up, Fill(b, t)) && All(b.up, Fill(b, t)) == All(b, t)
      && Passed(b.up, Fill(b, t)) == Through(b, t) && Depth(Base(b.up)) < Depth(b)
  {
    hide Conf, Flat;
    if b.InD? {
      ConfUp(tree.Now(), b, t);
      ThroughBelow(b, t);
    } else {
      assert [] + Flat(t, []) == Flat(t, []);
    }
  }

  /** The node after the last one of the chain, in the order in which names are stored. */
  method NextNode(tree: DomainTree, nodePath: seq<Node>, ghost k: Way, ghost t: Tree)
    returns (next: Node?, nodePath': seq<Node>, ghost k': Way, ghost t': Tree)
    requires Conf(tree.Now(), k, t) && t.N? && nodePath == Chain(k) + [t.e.nd]
    ensures next != null ==>
      && Conf(tree.Now(), k', t') && All(k', t') == All(k, t) && t'.N? && next == t'.e.nd
      && nodePath' == Chain(k') + [next]
      && ItemsBefore(k', t') == ItemsBefore(k, t) + [OwnItem(k, t)]
    ensures next == null ==> Flat(All(k, t), []) == ItemsBefore(k, t) + [OwnItem(k, t)]
    ensures TreeOk(tree) && All(k, t) == tree.shape && next != null ==> |nodePath'| <= MAX_LABELS
  {
    hide *;
    var node := nodePath[|nodePath| - 1];
    CellLinks(tree, k, t);
    RefIs(t.d);
    nodePath' := nodePath;
    if node.down != null {
      ConfDown(tree.Now(), k, t);
      BelowFirst(k, t);
      next, k', t' := LeftMost(tree, node.down, InD(t.e, t.c, t.l, t.r, k), t.d);
      nodePath' := nodePath' + [next];
      PathRoom(tree, k', t');
      return;
    }
    nodePath' := nodePath'[..|nodePath'| - 1];
    NothingBelow(k, t);
    next, k', t' := Successor(tree, node, k, t);
    if next != null {
      nodePath' := nodePath' + [next];
      PathRoom(tree, k', t');
      return;
    }
    BaseKind(k);
    while nodePath' != []
      invariant Conf(tree.Now(), k', t') && All(k', t') == All(k, t) && nodePath' == Chain(k') && (k'.Top? || k'.InD?)
      invariant Through(k', t') == Passed(k, t)
      decreases Depth(k')
    {
      LevelEnd(tree, k', t');
      var upper := nodePath'[|nodePath'| - 1];
      FillIs(k', t');
      BaseKind(k'.up);
      ghost var k0, t0 := k'.up, Fill(k', t');
      next, k', t' := Successor(tree, upper, k0, t0);
      nodePath' := nodePath'[..|nodePath'| - 1];
      if next != null {
        nodePath' := nodePath' + [next];
        PathRoom(tree, k', t');
        return;
      }
    }
    ChainNone(k');
    LevelEnd(tree, k', t');
    next := null;
  }

  lemma PathRoom(tree: DomainTree, k: Way, t: Tree)
    ensures TreeOk(tree) && All(k, t) == tree.shape && t.N? ==> |Chain(k)| + 1 <= MAX_LABELS
  {
    hide *;
    if TreeOk(tree) && All(k, t) == tree.shape && t.N? {
      PathBound(tree, k, t);
    }
  }

  lemma BaseKind(k: Way)
    ensures Base(k).Top? || Base(k).InD?
  {
  }

  lemma FillIs(k: Way, t: Tree)
    ensures k.InD? ==> Fill(k, t).N? && Fill(k, t).e == k.e
  {
  }

  lemma ChainNone(k: Way)
    requires Chain(k) == [] && (k.Top? || k.InD?)
    ensures k.Top?
  {
  }

  // ----- Every node once -----

  ghost predicate Distinct(items: seq<Item>) {
    forall i, j :: 0 <= i < j < |items| ==> items[i].nd != items[j].nd
  }

  ghost function NodeSet(items: seq<Item>): set<Node> {
    set i | 0 <= i < |items| :: items[i].nd
  }

  lemma NodeSetConcat(a: seq<Item>, b: seq<Item>)
    ensures NodeSet(a + b) == NodeSet(a) + NodeSet(b)
    ensures Distinct(a) && Distinct(b) && NodeSet(a) !! NodeSet(b) ==> Distinct(a + b)
  {
    forall nd | nd in NodeSet(a) + NodeSet(b) ensures nd in NodeSet(a + b) {
      if nd in NodeSet(a) {
        var i :| 0 <= i < |a| && a[i].nd == nd;
        assert (a + b)[i].nd == nd;
      } else {
        var i :| 0 <= i < |b| && b[i].nd == nd;
        assert (a + b)[|a| + i].nd == nd;
      }
    }
    if Distinct(a) && Distinct(b) && NodeSet(a) !! NodeSet(b) {
      forall i, j | 0 <= i < j < |a + b| ensures (a + b)[i].nd != (a + b)[j].nd {
        if i < |a| <= j {
          assert a[i].nd in NodeSet(a) && b[j - |a|].nd in NodeSet(b);
        }
      }
    }
  }

  lemma NodeSetOne(x: Item)
    ensures NodeSet([x]) == {x.nd} && Distinct([x])
  {
    assert [x][0] == x;
  }

  /** The items of a tree have its nodes, each of them once. */
  lemma {:induction false} FlatDistinct(t: Tree, s: seq<Label>)
    requires Tidy(t)
    ensures NodeSet(Flat(t, s)) == Nodes(t) && Distinct(Flat(t, s))
    decreases t
  {
    hide NodeSet, Distinct;
    if t.Leaf? {
      NodeSetNone();
    } else {
      var own, below := Item(NameOf(t.e) + s, t.e.nd, t.e.data), NameOf(t.e) + s;
      FlatDistinct(t.l, s);
      FlatDistinct(t.d, below);
      FlatDistinct(t.r, s);
      NodeSetOne(own);
      NodeSetConcat([own], Flat(t.d, below));
      NodeSetConcat(Flat(t.l, s), [own] + Flat(t.d, below));
      NodeSetConcat(Flat(t.l, s) + ([own] + Flat(t.d, below)), Flat(t.r, s));
    }
  }

  lemma NodeSetNone()
    ensures NodeSet([]) == {} && Distinct([])
  {
  }

  lemma ShapeDistinct(tree: DomainTree)
    requires TreeOk(tree)
    ensures NodeSet(Flat(tree.shape, [])) == Nodes(tree.shape) && Distinct(Flat(tree.shape, []))
    ensures tree.shape.Leaf? ==> Nodes(tree.shape) == {}
  {
    FlatDistinct(tree.shape, []);
  }

  lemma VisitedAll(items: seq<Item>, visited: seq<Node>)
    requires |visited| == |items| && Distinct(items) && forall i :: 0 <= i < |visited| ==> visited[i] == items[i].nd
    ensures forall i, j :: 0 <= i < j < |visited| ==> visited[i] != visited[j]
    ensures forall nd :: nd in visited <==> nd in NodeSet(items)
  {
    forall nd | nd in visited ensures nd in NodeSet(items) {
      var i :| 0 <= i < |visited| && visited[i] == nd;
      assert items[i].nd == nd;
    }
    forall nd | nd in NodeSet(items) ensures nd in visited {
      var i :| 0 <= i < |items| && items[i].nd == nd;
      assert visited[i] == nd;
    }
  }

  /** From the top node on, `NextNode` visits every node once, in the canonical order of the names. */
  method Walk(tree: DomainTree) returns (visited: seq<Node>)
    requires TreeOk(tree)
    ensures |visited| == |Flat(tree.shape, [])|
    ensures forall i :: 0 <= i < |visited| ==> visited[i] == Flat(tree.shape, [])[i].nd
    ensures SortedItems(Flat(tree.shape, []))
    ensures forall i, j :: 0 <= i < j < |visited| ==> visited[i] != visited[j]
    ensures forall nd :: nd in visited <==> nd in Nodes(tree.shape)
  {
    hide *;
    visited := [];
    RootTop(tree);
    ShapeDistinct(tree);
    ZoneSorted(tree.shape);
    LeafFlat([]);
    if tree.root == null {
      return;
    }
    ghost var k, t := Top, tree.shape;
    var node: Node, path := tree.root, [tree.root];
    WalkStart(tree.shape);
    visited := [node];
    while true
      invariant Conf(tree.Now(), k, t) && t.N? && node == t.e.nd && All(k, t) == tree.shape && path == Chain(k) + [node]
      invariant |visited| == |ItemsBefore(k, t)| + 1 <= |Flat(tree.shape, [])|
      invariant forall i :: 0 <= i < |visited| ==> visited[i] == Flat(tree.shape, [])[i].nd
      decreases |Flat(tree.shape, [])| - |visited|
    {
      FlatAt(k, t);
      var next;
      ghost var k0, t0 := k, t;
      next, path, k, t := NextNode(tree, path, k0, t0);
      if next == null {
        VisitedAll(Flat(tree.shape, []), visited);
        return;
      }
      node := next;
      FlatAt(k, t);
      OwnIs(k, t);
      visited := visited + [node];
    }
  }

  lemma OwnIs(k: Way, t: Tree)
    requires t.N?
    ensures OwnItem(k, t).nd == t.e.nd
  {
  }

  lemma WalkStart(t: Tree)
    requires Zone(t) && t.N?
    ensures |ItemsBefore(Top, t)| == 0 && All(Top, t) == t && Chain(Top) == [] && |Flat(t, [])| >= 1
    ensures Flat(t, [])[0].nd == t.e.nd
  {
    FlatAt(Top, t);
    LeafFlat([]);
  }
}
