/** `insertRebalance` of `g53/domaintree/domaintree.go`: one red node too many is repaired. */
module InsertBalance {
  import opened Names
  import opened Trees
  import opened Rotations
  import opened RedBlack

  /** A level that is balanced except that the red node in the hole may have a red parent. */
  ghost predicate Loose(k: Way, t: Tree, n: nat) {
    && t.N? && Even(t, n) && WayEven(k, n) && Calm(t) && WayCalm(k) && TopBlack(k)
    && (Above(k) != null ==> t.c == Red)
  }

  /** How much repair is left. */
  ghost function Work(k: Way): nat {
    if WayCol(k) == Red then 1 + Depth(k) else 0
  }

  /** What the loop reads at the node in the hole. */
  ghost predicate Seen(h: Heap, k: Way, t: Tree) {
    t.N? && t.e.nd in h.cells && h.cells[t.e.nd].parent == Above(k)
    && (Above(k) == null <==> TopOf(h, Upper(k)) == t.e.nd)
    && (Above(k) != null ==> Above(k) in h.cells && h.cells[Above(k)].color == WayCol(k))
    && (Upper(k) != null ==> Upper(k) in h.cells)
  }

  /** The pointer to the top of a level. */
  ghost function TopOf(h: Heap, up: Node?): Node? {
    if up == null then h.root else if up in h.cells then h.cells[up].down else null
  }

  lemma {:induction false} TopAbove(h: Heap, k: Way, hole: Node)
    requires Around(h.cells, k, hole, h.root)
    ensures Upper(k) != null ==> Upper(k) in h.cells
    ensures Above(k) == null ==> TopOf(h, Upper(k)) == hole
    ensures Above(k) != null ==> TopOf(h, Upper(k)) in WayNodes(k)
    decreases k
  {
    if k.InL? || k.InR? {
      TopAbove(h, k.up, k.e.nd);
    }
  }

  lemma SeeAll(h: Heap, k: Way, t: Tree)
    requires Conf(h, k, t) && t.N?
    ensures Seen(h, k, t)
  {
    TopAbove(h, k, t.e.nd);
    RefIn(t);
  }

  /** Which child of its parent the node in the hole is. */
  lemma Side(h: Heap, k: Way, t: Tree)
    requires Conf(h, k, t) && t.N? && Above(k) != null
    ensures Above(k) in h.cells && (h.cells[Above(k)].left == t.e.nd <==> k.InL?)
    ensures h.cells[Above(k)].right == t.e.nd <==> k.InR?
  {
    RefIn(t);
    RefIn(if k.InL? then k.r else k.l);
  }

  /** One node is painted. */
  method Paint(tree: DomainTree, node: Node, color: Color, ghost k: Way, ghost t: Tree)
    requires t.N? && Conf(tree.Now(), k, t) && node == t.e.nd && node in tree.nodes
    modifies node`color
    ensures Conf(tree.Now(), k, Dyed(t, color))
  {
    ghost var h := tree.Now();
    node.color := color;
    Painted(h, tree.Now(), k, t, color);
  }

  lemma Painted(h: Heap, h': Heap, k: Way, t: Tree, c: Color)
    requires t.N? && Conf(h, k, t) && t.e.nd in h.cells && h'.root == h.root
    requires Holds(h'.cells, t.e.nd, h.cells[t.e.nd].(color := c)) && SameOn(h.cells, h'.cells, h.cells.Keys - {t.e.nd})
    ensures Conf(h', k, Dyed(t, c))
  {
    hide WayTidy;
    SubFrame(h.cells, h'.cells, t.e.nd, t.l);
    SubFrame(h.cells, h'.cells, t.e.nd, t.r);
    SubFrame(h.cells, h'.cells, null, t.d);
    AroundFrame(h.cells, h'.cells, k, t.e.nd, h.root);
  }


  /** A red uncle on the right: the colours move up. */
  ghost function RaisedLeft(k: Way, t: Tree): (g: Tree)
    requires (k.InL? || k.InR?) && k.up.InL? && k.up.r.N?
    ensures g.N? && g.e == k.up.e
  {
    N(k.up.e, Red, Dyed(Fill(k, t), Black), Dyed(k.up.r, Black), k.up.d)
  }

  lemma RaiseLeftKeeps(k: Way, t: Tree, n: nat)
    requires Loose(k, t, n) && WayCol(k) == Red && k.up.InL? && Col(k.up.r) == Red
    ensures Loose(k.up.up, RaisedLeft(k, t), n + 1) && Base(k.up.up) == Base(k)
    ensures Work(k.up.up) < Work(k)
  {
    var p, g := Fill(k, t), RaisedLeft(k, t);
    assert WayCalm(k.up) && WayCol(k.up) == Black && WayEven(k.up, n);
    assert Even(Dyed(p, Black), n + 1) && Calm(Dyed(p, Black)) by {
      if k.InL? { assert Even(k.r, n); } else { assert Even(k.l, n); }
    }
    assert Even(g.r, n + 1) && Calm(g.r);
    assert TopBlack(k.up) && Depth(k) == 2 + Depth(k.up.up);
  }

  lemma RaiseLeftEntries(k: Way, t: Tree)
    requires (k.InL? || k.InR?) && k.up.InL? && k.up.r.N?
    ensures Whole(k.up.up, RaisedLeft(k, t)) == Whole(k, t)
  {
    hide Before, After;
    WholeUp(k, t);
    WholeUp(k.up, Fill(k, t));
    ColorEntries(Fill(k, t), Black);
    ColorEntries(k.up.r, Black);
  }

  /** A black uncle on the right and the node an inner child: after one rotation it is an outer child. */
  lemma InnerLeftKeeps(k: Way, t: Tree, n: nat)
    requires Loose(k, t, n) && WayCol(k) == Red && k.InR? && k.up.InL?
    ensures var s := LeftRotation(Fill(k, t));
      && Loose(InL(s.e, s.c, s.r, s.d, k.up), s.l, n) && s.c == Red
      && s.l.N? && Base(k.up) == Base(k) && Base(InL(s.e, s.c, s.r, s.d, k.up)) == Base(k)
      && Work(InL(s.e, s.c, s.r, s.d, k.up)) == Work(k)
  {
  }

  lemma InnerLeftEntries(k: Way, t: Tree)
    requires t.N? && k.InR?
    ensures var s := LeftRotation(Fill(k, t)); Whole(InL(s.e, s.c, s.r, s.d, k.up), s.l) == Whole(k, t)
  {
    var s := LeftRotation(Fill(k, t));
    LeftEntries(Fill(k, t));
    WholeUp(k, t);
    WholeUp(InL(s.e, s.c, s.r, s.d, k.up), s.l);
  }

  /** A black uncle on the right and the node an outer child: the parent, now black, takes the place above. */
  ghost function OuterLeft(k: Way): Way
    requires k.InL? && k.up.InL?
  {
    InL(k.e, Black, N(k.up.e, Red, k.r, k.up.r, k.up.d), k.d, k.up.up)
  }

  lemma OuterLeftKeeps(k: Way, t: Tree, n: nat)
    requires Loose(k, t, n) && WayCol(k) == Red && k.InL? && k.up.InL? && Col(k.up.r) == Black
    ensures Loose(OuterLeft(k), t, n) && Base(OuterLeft(k)) == Base(k) && Work(OuterLeft(k)) < Work(k)
  {
    assert WayCalm(k.up) && WayCol(k.up) == Black && WayEven(k.up, n) && TopBlack(k.up);
    assert WayEven(k.up.up, n + 1);
  }

  lemma OuterLeftEntries(k: Way, t: Tree)
    requires k.InL? && k.up.InL?
    ensures Whole(OuterLeft(k), t) == Whole(k, t)
  {
    hide Before, After;
    WholeUp(k, t);
    WholeUp(k.up, Fill(k, t));
    WholeUp(OuterLeft(k), t);
    var g := Fill(k.up, Fill(k, t));
    RightEntries(g);
    assert Entries(Fill(OuterLeft(k), t)) == Entries(RightRotation(g));
  }

  /** The family of the node in the hole, when its parent is a left child. */
  ghost predicate KinLeft(h: Heap, k: Way, t: Tree) {
    && t.N? && (k.InL? || k.InR?) && k.up.InL? && {t.e.nd, k.e.nd, k.up.e.nd} <= h.cells.Keys
    && h.cells[t.e.nd].parent == k.e.nd && h.cells[k.e.nd].parent == k.up.e.nd
    && h.cells[k.up.e.nd].right == Ref(k.up.r)
    && (k.up.r.N? ==> k.up.r.e.nd in h.cells && h.cells[k.up.r.e.nd].color == k.up.r.c)
    && (h.cells[k.e.nd].right == t.e.nd <==> k.InR?)
  }

  lemma SeeLeft(h: Heap, k: Way, t: Tree)
    requires Conf(h, k, t) && t.N? && (k.InL? || k.InR?) && k.up.InL?
    ensures KinLeft(h, k, t) && Upper(k.up.up) == Upper(k) && Upper(k.up) == Upper(k)
    ensures Conf(h, k.up, Fill(k, t))
  {
    hide Conf;
    assert Base(k) == Base(k.up) == Base(k.up.up);
    Side(h, k, t);
    ConfCell(h, k, t);
    ConfUp(h, k, t);
    ConfCell(h, k.up, Fill(k, t));
    ConfUp(h, k.up, Fill(k, t));
    ghost var g := Fill(k.up, Fill(k, t));
    ConfCell(h, k.up.up, g);
    ConfRight(h, k.up.up, g);
    if g.r.N? {
      ConfCell(h, InR(g.e, g.c, g.l, g.d, k.up.up), g.r);
    }
  }

  method RaiseLeft(tree: DomainTree, node: Node, parent: Node, grand: Node, uncle: Node, ghost k: Way, ghost t: Tree)
    requires Conf(tree.Now(), k, t) && t.N? && node == t.e.nd
    requires (k.InL? || k.InR?) && k.up.InL? && k.up.r.N?
    requires parent == k.e.nd && grand == k.up.e.nd && uncle == k.up.r.e.nd && {parent, grand, uncle} <= tree.nodes
    modifies tree.nodes`color
    ensures Conf(tree.Now(), k.up.up, RaisedLeft(k, t))
  {
    hide Conf;
    ghost var kg, kk, p := k.up, k.up.up, Fill(k, t);
    ConfUp(tree.Now(), k, t);
    Paint(tree, parent, Black, kg, p);
    ConfUp(tree.Now(), kg, Dyed(p, Black));
    ghost var g := Fill(kg, Dyed(p, Black));
    ConfRight(tree.Now(), kk, g);
    ghost var ku := InR(g.e, g.c, g.l, g.d, kk);
    Paint(tree, uncle, Black, ku, g.r);
    ConfUp(tree.Now(), ku, Dyed(g.r, Black));
    Paint(tree, grand, Red, kk, Fill(ku, Dyed(g.r, Black)));
  }

  method TurnInnerLeft(tree: DomainTree, up: Node?, node: Node, ghost k: Way, ghost t: Tree) returns (node': Node)
    requires Conf(tree.Now(), k, t) && t.N? && node == t.e.nd && up == Upper(k) && k.InR?
    modifies tree`root, tree.nodes`parent, tree.nodes`left, tree.nodes`right, tree.nodes`down
    ensures var s := LeftRotation(Fill(k, t));
      Conf(tree.Now(), InL(s.e, s.c, s.r, s.d, k.up), s.l) && node' == s.l.e.nd
  {
    hide Conf;
    ConfCell(tree.Now(), k, t);
    ConfUp(tree.Now(), k, t);
    node' := node.parent;
    TurnLeft(tree, up, node', k.up, Fill(k, t));
    ConfLeft(tree.Now(), k.up, LeftRotation(Fill(k, t)));
  }

  method TurnOuterLeft(tree: DomainTree, up: Node?, parent: Node, grand: Node, ghost k: Way, ghost t: Tree)
    requires Conf(tree.Now(), k, t) && k.InL? && k.up.InL? && up == Upper(k.up.up)
    requires parent == k.e.nd && grand == k.up.e.nd && {parent, grand} <= tree.nodes
    modifies tree`root, tree.nodes`parent, tree.nodes`left, tree.nodes`right, tree.nodes`down, tree.nodes`color
    ensures Conf(tree.Now(), OuterLeft(k), t)
  {
    hide Conf;
    ghost var kg, kk, p := k.up, k.up.up, Fill(k, t);
    ConfUp(tree.Now(), k, t);
    Paint(tree, parent, Black, kg, p);
    ConfUp(tree.Now(), kg, Dyed(p, Black));
    ghost var g := Fill(kg, Dyed(p, Black));
    Paint(tree, grand, Red, kk, g);
    TurnRight(tree, up, grand, kk, Dyed(g, Red));
    ConfLeft(tree.Now(), kk, RightRotation(Dyed(g, Red)));
  }

  /** One round of the loop when the parent is a left child. */
  method RepairLeft(tree: DomainTree, up: Node?, node: Node, ghost k: Way, ghost t: Tree, ghost n: nat)
    returns (node': Node, ghost k': Way, ghost t': Tree, ghost n': nat)
    requires Conf(tree.Now(), k, t) && Loose(k, t, n) && t.N? && node == t.e.nd && up == Upper(k)
    requires WayCol(k) == Red && k.up.InL?
    modifies tree`root, tree.nodes`parent, tree.nodes`left, tree.nodes`right, tree.nodes`down, tree.nodes`color
    ensures Conf(tree.Now(), k', t') && Loose(k', t', n') && t'.N? && node' == t'.e.nd
    ensures Whole(k', t') == Whole(k, t) && Base(k') == Base(k) && Work(k') < Work(k)
  {
    hide Conf, Loose, Whole, Work, OuterLeft, RaisedLeft, LeftRotation, Base;
    SeeLeft(tree.Now(), k, t);
    var uncle := node.parent.parent.right;
    if uncle != null && uncle.color == Red {
      RaiseLeftKeeps(k, t, n);
      RaiseLeftEntries(k, t);
      RaiseLeft(tree, node, node.parent, node.parent.parent, uncle, k, t);
      node' := node.parent.parent;
      k', t', n' := k.up.up, RaisedLeft(k, t), n + 1;
    } else {
      node', k', t', n' := node, k, t, n;
      if node == node.parent.right {
        InnerLeftKeeps(k, t, n);
        InnerLeftEntries(k, t);
        node' := TurnInnerLeft(tree, up, node, k, t);
        ghost var s := LeftRotation(Fill(k, t));
        k', t' := InL(s.e, s.c, s.r, s.d, k.up), s.l;
        SeeLeft(tree.Now(), k', t');
      }
      OuterLeftKeeps(k', t', n');
      OuterLeftEntries(k', t');
      TurnOuterLeft(tree, up, node'.parent, node'.parent.parent, k', t');
      k' := OuterLeft(k');
    }
  }


  /** A red uncle on the left: the colours move up. */
  ghost function RaisedRight(k: Way, t: Tree): (g: Tree)
    requires (k.InR? || k.InL?) && k.up.InR? && k.up.l.N?
    ensures g.N? && g.e == k.up.e
  {
    N(k.up.e, Red, Dyed(k.up.l, Black), Dyed(Fill(k, t), Black), k.up.d)
  }

  lemma RaiseRightKeeps(k: Way, t: Tree, n: nat)
    requires Loose(k, t, n) && WayCol(k) == Red && k.up.InR? && Col(k.up.l) == Red
    ensures Loose(k.up.up, RaisedRight(k, t), n + 1) && Base(k.up.up) == Base(k)
    ensures Work(k.up.up) < Work(k)
  {
    var p, g := Fill(k, t), RaisedRight(k, t);
    assert WayCalm(k.up) && WayCol(k.up) == Black && WayEven(k.up, n);
    assert Even(Dyed(p, Black), n + 1) && Calm(Dyed(p, Black)) by {
      if k.InR? { assert Even(k.l, n); } else { assert Even(k.r, n); }
    }
    assert Even(g.l, n + 1) && Calm(g.l);
    assert TopBlack(k.up) && Depth(k) == 2 + Depth(k.up.up);
  }

  lemma RaiseRightEntries(k: Way, t: Tree)
    requires (k.InR? || k.InL?) && k.up.InR? && k.up.l.N?
    ensures Whole(k.up.up, RaisedRight(k, t)) == Whole(k, t)
  {
    hide Before, After;
    WholeUp(k, t);
    WholeUp(k.up, Fill(k, t));
    ColorEntries(Fill(k, t), Black);
    ColorEntries(k.up.l, Black);
  }

  /** A black uncle on the left and the node an inner child: after one rotation it is an outer child. */
  lemma InnerRightKeeps(k: Way, t: Tree, n: nat)
    requires Loose(k, t, n) && WayCol(k) == Red && k.InL? && k.up.InR?
    ensures var s := RightRotation(Fill(k, t));
      && Loose(InR(s.e, s.c, s.l, s.d, k.up), s.r, n) && s.c == Red
      && s.r.N? && Base(k.up) == Base(k) && Base(InR(s.e, s.c, s.l, s.d, k.up)) == Base(k)
      && Work(InR(s.e, s.c, s.l, s.d, k.up)) == Work(k)
  {
  }

  lemma InnerRightEntries(k: Way, t: Tree)
    requires t.N? && k.InL?
    ensures var s := RightRotation(Fill(k, t)); Whole(InR(s.e, s.c, s.l, s.d, k.up), s.r) == Whole(k, t)
  {
    var s := RightRotation(Fill(k, t));
    RightEntries(Fill(k, t));
    WholeUp(k, t);
    WholeUp(InR(s.e, s.c, s.l, s.d, k.up), s.r);
  }

  /** A black uncle on the left and the node an outer child: the parent, now black, takes the place above. */
  ghost function OuterRight(k: Way): Way
    requires k.InR? && k.up.InR?
  {
    InR(k.e, Black, N(k.up.e, Red, k.up.l, k.l, k.up.d), k.d, k.up.up)
  }

  lemma OuterRightKeeps(k: Way, t: Tree, n: nat)
    requires Loose(k, t, n) && WayCol(k) == Red && k.InR? && k.up.InR? && Col(k.up.l) == Black
    ensures Loose(OuterRight(k), t, n) && Base(OuterRight(k)) == Base(k) && Work(OuterRight(k)) < Work(k)
  {
    assert WayCalm(k.up) && WayCol(k.up) == Black && WayEven(k.up, n) && TopBlack(k.up);
    assert WayEven(k.up.up, n + 1);
  }

  lemma OuterRightEntries(k: Way, t: Tree)
    requires k.InR? && k.up.InR?
    ensures Whole(OuterRight(k), t) == Whole(k, t)
  {
    hide Before, After;
    WholeUp(k, t);
    WholeUp(k.up, Fill(k, t));
    WholeUp(OuterRight(k), t);
    var g := Fill(k.up, Fill(k, t));
    LeftEntries(g);
    assert Entries(Fill(OuterRight(k), t)) == Entries(LeftRotation(g));
  }

  /** The family of the node in the hole, when its parent is a right child. */
  ghost predicate KinRight(h: Heap, k: Way, t: Tree) {
    && t.N? && (k.InR? || k.InL?) && k.up.InR? && {t.e.nd, k.e.nd, k.up.e.nd} <= h.cells.Keys
    && h.cells[t.e.nd].parent == k.e.nd && h.cells[k.e.nd].parent == k.up.e.nd
    && h.cells[k.up.e.nd].left == Ref(k.up.l)
    && (k.up.l.N? ==> k.up.l.e.nd in h.cells && h.cells[k.up.l.e.nd].color == k.up.l.c)
    && (h.cells[k.e.nd].left == t.e.nd <==> k.InL?)
  }

  lemma SeeRight(h: Heap, k: Way, t: Tree)
    requires Conf(h, k, t) && t.N? && (k.InR? || k.InL?) && k.up.InR?
    ensures KinRight(h, k, t) && Upper(k.up.up) == Upper(k) && Upper(k.up) == Upper(k)
    ensures Conf(h, k.up, Fill(k, t))
  {
    hide Conf;
    assert Base(k) == Base(k.up) == Base(k.up.up);
    Side(h, k, t);
    ConfCell(h, k, t);
    ConfUp(h, k, t);
    ConfCell(h, k.up, Fill(k, t));
    ConfUp(h, k.up, Fill(k, t));
    ghost var g := Fill(k.up, Fill(k, t));
    ConfCell(h, k.up.up, g);
    ConfLeft(h, k.up.up, g);
    if g.l.N? {
      ConfCell(h, InL(g.e, g.c, g.r, g.d, k.up.up), g.l);
    }
  }

  method RaiseRight(tree: DomainTree, node: Node, parent: Node, grand: Node, uncle: Node, ghost k: Way, ghost t: Tree)
    requires Conf(tree.Now(), k, t) && t.N? && node == t.e.nd
    requires (k.InR? || k.InL?) && k.up.InR? && k.up.l.N?
    requires parent == k.e.nd && grand == k.up.e.nd && uncle == k.up.l.e.nd && {parent, grand, uncle} <= tree.nodes
    modifies tree.nodes`color
    ensures Conf(tree.Now(), k.up.up, RaisedRight(k, t))
  {
    hide Conf;
    ghost var kg, kk, p := k.up, k.up.up, Fill(k, t);
    ConfUp(tree.Now(), k, t);
    Paint(tree, parent, Black, kg, p);
    ConfUp(tree.Now(), kg, Dyed(p, Black));
    ghost var g := Fill(kg, Dyed(p, Black));
    ConfLeft(tree.Now(), kk, g);
    ghost var ku := InL(g.e, g.c, g.r, g.d, kk);
    Paint(tree, uncle, Black, ku, g.l);
    ConfUp(tree.Now(), ku, Dyed(g.l, Black));
    Paint(tree, grand, Red, kk, Fill(ku, Dyed(g.l, Black)));
  }

  method TurnInnerRight(tree: DomainTree, up: Node?, node: Node, ghost k: Way, ghost t: Tree) returns (node': Node)
    requires Conf(tree.Now(), k, t) && t.N? && node == t.e.nd && up == Upper(k) && k.InL?
    modifies tree`root, tree.nodes`parent, tree.nodes`right, tree.nodes`left, tree.nodes`down
    ensures var s := RightRotation(Fill(k, t));
      Conf(tree.Now(), InR(s.e, s.c, s.l, s.d, k.up), s.r) && node' == s.r.e.nd
  {
    hide Conf;
    ConfCell(tree.Now(), k, t);
    ConfUp(tree.Now(), k, t);
    node' := node.parent;
    TurnRight(tree, up, node', k.up, Fill(k, t));
    ConfRight(tree.Now(), k.up, RightRotation(Fill(k, t)));
  }

  method TurnOuterRight(tree: DomainTree, up: Node?, parent: Node, grand: Node, ghost k: Way, ghost t: Tree)
    requires Conf(tree.Now(), k, t) && k.InR? && k.up.InR? && up == Upper(k.up.up)
    requires parent == k.e.nd && grand == k.up.e.nd && {parent, grand} <= tree.nodes
    modifies tree`root, tree.nodes`parent, tree.nodes`right, tree.nodes`left, tree.nodes`down, tree.nodes`color
    ensures Conf(tree.Now(), OuterRight(k), t)
  {
    hide Conf;
    ghost var kg, kk, p := k.up, k.up.up, Fill(k, t);
    ConfUp(tree.Now(), k, t);
    Paint(tree, parent, Black, kg, p);
    ConfUp(tree.Now(), kg, Dyed(p, Black));
    ghost var g := Fill(kg, Dyed(p, Black));
    Paint(tree, grand, Red, kk, g);
    TurnLeft(tree, up, grand, kk, Dyed(g, Red));
    ConfRight(tree.Now(), kk, LeftRotation(Dyed(g, Red)));
  }

  /** One round of the loop when the parent is a right child. */
  method RepairRight(tree: DomainTree, up: Node?, node: Node, ghost k: Way, ghost t: Tree, ghost n: nat)
    returns (node': Node, ghost k': Way, ghost t': Tree, ghost n': nat)
    requires Conf(tree.Now(), k, t) && Loose(k, t, n) && t.N? && node == t.e.nd && up == Upper(k)
    requires WayCol(k) == Red && k.up.InR?
    modifies tree`root, tree.nodes`parent, tree.nodes`right, tree.nodes`left, tree.nodes`down, tree.nodes`color
    ensures Conf(tree.Now(), k', t') && Loose(k', t', n') && t'.N? && node' == t'.e.nd
    ensures Whole(k', t') == Whole(k, t) && Base(k') == Base(k) && Work(k') < Work(k)
  {
    hide Conf, Loose, Whole, Work, OuterRight, RaisedRight, RightRotation, Base;
    SeeRight(tree.Now(), k, t);
    var uncle := node.parent.parent.left;
    if uncle != null && uncle.color == Red {
      RaiseRightKeeps(k, t, n);
      RaiseRightEntries(k, t);
      RaiseRight(tree, node, node.parent, node.parent.parent, uncle, k, t);
      node' := node.parent.parent;
      k', t', n' := k.up.up, RaisedRight(k, t), n + 1;
    } else {
      node', k', t', n' := node, k, t, n;
      if node == node.parent.left {
        InnerRightKeeps(k, t, n);
        InnerRightEntries(k, t);
        node' := TurnInnerRight(tree, up, node, k, t);
        ghost var s := RightRotation(Fill(k, t));
        k', t' := InR(s.e, s.c, s.l, s.d, k.up), s.r;
        SeeRight(tree.Now(), k', t');
      }
      OuterRightKeeps(k', t', n');
      OuterRightEntries(k', t');
      TurnOuterRight(tree, up, node'.parent, node'.parent.parent, k', t');
      k' := OuterRight(k');
    }
  }

  lemma GrandparentSide(h: Heap, k: Way, t: Tree)
    requires Conf(h, k, t) && t.N? && WayCol(k) == Red && TopBlack(k)
    ensures Above(k.up) != null && k.e.nd in h.cells && h.cells[k.e.nd].parent == k.up.e.nd && k.up.e.nd in h.cells
    ensures h.cells[k.up.e.nd].left == k.e.nd <==> k.up.InL?
  {
    ConfUp(h, k, t);
    Side(h, k.up, Fill(k, t));
  }

  lemma BlackTop(h: Heap, k: Way, t: Tree, n: nat)
    requires Conf(h, k, t) && Loose(k, t, n) && WayCol(k) == Black
    ensures var s := Closed(k, t);
      && s.N? && Conf(h, Base(k), s) && Entries(Dyed(s, Black)) == Whole(k, t) && Balanced(Dyed(s, Black))
      && TopOf(h, Upper(k)) == s.e.nd && s.e.nd in h.cells
  {
    hide Conf, Even, Calm, WayEven, WayCalm, TopBlack, Entries;
    var s := Closed(k, t);
    ClosedConf(h, k, t);
    ClosedEntries(k, t);
    assert Whole(k, t)[|Before(k)| + |Entries(t.l)|] == Entry(t.e, t.d) by { OwnEntry(t); }
    NoEntries(s);
    ColorEntries(s, Black);
    var m := ClosedBalanced(k, t, n);
    DyedBlack(s, m);
    SeeAll(h, Base(k), s);
    BaseTop(k);
  }

  lemma OwnEntry(t: Tree)
    requires t.N?
    ensures |Entries(t.l)| < |Entries(t)| && Entries(t)[|Entries(t.l)|] == Entry(t.e, t.d)
  {
  }

  lemma NoEntries(t: Tree)
    ensures t.Leaf? <==> Entries(t) == []
  {
  }

  lemma DyedBlack(t: Tree, n: nat)
    requires t.N? && Even(t, n) && Calm(t)
    ensures Balanced(Dyed(t, Black))
  {
    assert Even(Dyed(t, Black), if t.c == Black then n else n + 1);
  }

  lemma {:induction false} BaseTop(k: Way)
    ensures Above(Base(k)) == null && Upper(Base(k)) == Upper(k) && Base(Base(k)) == Base(k)
    decreases k
  {
    if k.InL? || k.InR? {
      BaseTop(k.up);
    }
  }

  /** After the repair the level holds the same nodes in the same order, and it is balanced. */
  method InsertRebalance(tree: DomainTree, up: Node?, node: Node, ghost k: Way, ghost t: Tree, ghost n: nat)
    returns (ghost t': Tree)
    requires Conf(tree.Now(), k, t) && Loose(k, t, n) && t.N? && node == t.e.nd && up == Upper(k)
    modifies tree`root, tree.nodes`parent, tree.nodes`left, tree.nodes`right, tree.nodes`down, tree.nodes`color
    ensures Conf(tree.Now(), Base(k), t') && Entries(t') == Whole(k, t) && Balanced(t')
  {
    hide Conf, Whole, Even, Calm, WayEven, WayCalm, TopBlack, Balanced, Base, Work;
    var node := node;
    ghost var k', s, m := k, t, n;
    SeeAll(tree.Now(), k', s);
    while node != (if up == null then tree.root else up.down) && node.parent.color == Red
      invariant Conf(tree.Now(), k', s) && Loose(k', s, m) && s.N? && node == s.e.nd && Seen(tree.Now(), k', s)
      invariant Whole(k', s) == Whole(k, t) && Base(k') == Base(k)
      decreases Work(k')
    {
      GrandparentSide(tree.Now(), k', s);
      if node.parent == node.parent.parent.left {
        node, k', s, m := RepairLeft(tree, up, node, k', s, m);
      } else {
        node, k', s, m := RepairRight(tree, up, node, k', s, m);
      }
      SeeAll(tree.Now(), k', s);
    }
    BlackTop(tree.Now(), k', s, m);
    t' := Closed(k', s);
    var top := if up == null then tree.root else up.down;
    Paint(tree, top, Black, Base(k'), t');
    t' := Dyed(t', Black);
  }
}
