/** The two rotations of a level: `leftRotate` and `rightRotate` of `g53/domaintree/domaintree.go`. */
module Rotations {
  import opened Names
  import opened Trees

  /** The nodes around a rotation at `x` are different ones. */
  ghost predicate Ready(h: Heap, x: Node, y: Node, b: Node?, up: Node?) {
    x in h.cells && y in h.cells && x != y &&
    var p := h.cells[x].parent;
    && (b != null ==> b in h.cells && b !in {x, y})
    && (p != null ==> p in h.cells && p !in {x, y} && p != b)
    && (up != null ==> up in h.cells && up !in {x, y} && up != b)
  }

  /** `x` is one of the two children of its parent. */
  ghost predicate OneSide(h: Heap, x: Node) {
    x in h.cells &&
    var p := h.cells[x].parent;
    p != null ==> p in h.cells && (h.cells[p].left == x <==> h.cells[p].right != x)
  }

  /**
    * The pointer to `node` becomes one to `child`: in the parent of `node`, or at the top of the level.
    * The left rotation takes `node` for a right child if it is not the left one, the right rotation
    * the other way round.
    */
  method Hang(tree: DomainTree, up: Node?, node: Node, child: Node, askRight: bool)
    requires node in tree.nodes && (up != null ==> up in tree.nodes)
    requires node.parent != null ==> node.parent in tree.nodes
    requires askRight ==> OneSide(tree.Now(), node)
    modifies tree`root, tree.nodes`left, tree.nodes`right, tree.nodes`down
    ensures Hung(old(tree.Now()), tree.Now(), node.parent, up, node, child, tree.nodes)
  {
    if node.parent != null {
      var right := if askRight then node == node.parent.right else node != node.parent.left;
      if right {
        node.parent.right := child;
      } else {
        node.parent.left := child;
      }
    } else if up != null {
      up.down := child;
    } else {
      tree.root := child;
    }
  }

  /** Nodes that a rotation does not touch. */
  ghost predicate Off(s: set<Node>, x: Node, y: Node, b: Node?, q: Node?) {
    x !in s && y !in s && b !in s && q !in s
  }

  /** The links after a left rotation at `x`, whose right child was `y`. */
  ghost predicate RotatedLeft(h: Heap, h': Heap, x: Node, y: Node, up: Node?) {
    x in h.cells && y in h.cells &&
    var p, b := h.cells[x].parent, h.cells[y].left;
    && Holds(h'.cells, x, h.cells[x].(right := b, parent := y))
    && Holds(h'.cells, y, h.cells[y].(left := x, parent := p))
    && (b != null ==> b in h.cells && Holds(h'.cells, b, h.cells[b].(parent := x)))
    && Hung(h, h', p, up, x, y, h.cells.Keys - {x, y, b})
  }

  ghost function LeftRotation(t: Tree): (s: Tree)
    requires t.N? && t.r.N?
    ensures s.N? && s.l.N?
  {
    N(t.r.e, t.r.c, N(t.e, t.c, t.l, t.r.l, t.d), t.r.r, t.r.d)
  }

  lemma LeftReady(h: Heap, k: Way, t: Tree)
    requires t.N? && t.r.N? && Conf(h, k, t)
    ensures Ready(h, t.e.nd, t.r.e.nd, Ref(t.r.l), Upper(k))
    ensures h.cells[t.e.nd].right == t.r.e.nd && h.cells[t.r.e.nd].left == Ref(t.r.l)
  {
    var x, y := t.e.nd, t.r.e.nd;
    assert Sub(h.cells, x, t.r);
    UpperIn(h, k, x);
    RefIn(t.r.l);
    if t.r.l.N? {
      assert Sub(h.cells, y, t.r.l);
    }
    if Above(k) != null {
      OneChild(h, k, x);
    }
  }

  lemma LeftOff(k: Way, t: Tree)
    requires t.N? && t.r.N? && Tidy(t) && Nodes(t) !! WayNodes(k)
    ensures var x, y, b, q := t.e.nd, t.r.e.nd, Ref(t.r.l), Spot(k);
      && Off(Nodes(t.l), x, y, b, q) && Off(Nodes(t.d), x, y, b, q)
      && Off(Nodes(t.r.r), x, y, b, q) && Off(Nodes(t.r.d), x, y, b, q)
      && x !in Nodes(t.r.l) && y !in Nodes(t.r.l) && q !in Nodes(t.r.l)
      && x !in WayNodes(k) && y !in WayNodes(k) && b !in WayNodes(k)
  {
    RefIn(t.r.l);
  }

  lemma LeftTidy(t: Tree)
    requires t.N? && t.r.N? && Tidy(t)
    ensures Tidy(LeftRotation(t)) && Nodes(LeftRotation(t)) == Nodes(t) && Tidy(t.r.l)
  {
  }

  lemma LeftSame(h: Heap, h': Heap, x: Node, y: Node, k: Way, s: set<Node>)
    requires RotatedLeft(h, h', x, y, Upper(k)) && Above(k) == h.cells[x].parent
    requires x !in s && y !in s && Spot(k) !in s
    ensures SameOn(h.cells, h'.cells, s - {h.cells[y].left})
  {
  }

  lemma LeftHung(h: Heap, h': Heap, x: Node, y: Node, k: Way)
    requires RotatedLeft(h, h', x, y, Upper(k)) && Above(k) == h.cells[x].parent
    requires x !in WayNodes(k) && y !in WayNodes(k) && h.cells[y].left !in WayNodes(k)
    ensures Hung(h, h', Above(k), Upper(k), x, y, WayNodes(k))
  {
    hide WayNodes, Base;
  }

  /** A left rotation turns the subtree that it is done at, and nothing else. */
  lemma LeftRotated(h: Heap, h': Heap, k: Way, t: Tree)
    requires t.N? && t.r.N? && Conf(h, k, t) && RotatedLeft(h, h', t.e.nd, t.r.e.nd, Upper(k))
    ensures Conf(h', k, LeftRotation(t))
  {
    hide Nodes, WayNodes, Tidy, WayTidy, SameOn, Base;
    var m, m', x, y := h.cells, h'.cells, t.e.nd, t.r.e.nd;
    assert Sub(m, x, t.r);
    LeftOff(k, t);
    LeftTidy(t);
    LeftSame(h, h', x, y, k, Nodes(t.l));
    LeftSame(h, h', x, y, k, Nodes(t.d));
    LeftSame(h, h', x, y, k, Nodes(t.r.l));
    LeftSame(h, h', x, y, k, Nodes(t.r.r));
    LeftSame(h, h', x, y, k, Nodes(t.r.d));
    LeftHung(h, h', x, y, k);
    HungAround(h, h', k, x, y);
    SubFrame(m, m', x, t.l);
    SubFrame(m, m', null, t.d);
    SubAdopted(m, m', y, x, t.r.l);
    SubFrame(m, m', y, t.r.r);
    SubFrame(m, m', null, t.r.d);
    assert Sub(m', y, LeftRotation(t).l);
  }

  /** The links after the first assignments, before the parent is told. */
  ghost predicate LeftHalf(h: Heap, h': Heap, x: Node, y: Node) {
    x in h.cells && y in h.cells && h'.root == h.root &&
    var p, b := h.cells[x].parent, h.cells[y].left;
    && Holds(h'.cells, x, h.cells[x].(right := b))
    && Holds(h'.cells, y, h.cells[y].(parent := p))
    && (b != null ==> b in h.cells && Holds(h'.cells, b, h.cells[b].(parent := x)))
    && SameOn(h.cells, h'.cells, h.cells.Keys - {x, y, b})
  }

  ghost predicate LeftLinked(h: Heap, h': Heap, y: Node, x: Node, s: set<Node>) {
    && x in h.cells && Holds(h'.cells, x, h.cells[x].(parent := y))
    && y in h.cells && Holds(h'.cells, y, h.cells[y].(left := x))
    && SameOn(h.cells, h'.cells, s - {x, y}) && h'.root == h.root
  }

  method LinkLeft(tree: DomainTree, parent: Node, child: Node)
    requires {parent, child} <= tree.nodes && parent != child
    modifies parent`left, child`parent
    ensures LeftLinked(old(tree.Now()), tree.Now(), parent, child, tree.nodes)
  {
    parent.left := child;
    child.parent := parent;
  }

  lemma LeftDone(h0: Heap, h1: Heap, h2: Heap, h3: Heap, x: Node, y: Node, up: Node?, s: set<Node>)
    requires x in h0.cells && y in h0.cells && Ready(h0, x, y, h0.cells[y].left, up) && h0.cells.Keys == s
    requires LeftHalf(h0, h1, x, y) && Hung(h1, h2, h0.cells[x].parent, up, x, y, s)
    requires LeftLinked(h2, h3, y, x, s)
    ensures RotatedLeft(h0, h3, x, y, up)
  {
  }

  /** `up` is the node that holds the level, null for the level that the tree itself points to. */
  method LeftRotate(tree: DomainTree, up: Node?, node: Node)
    requires {node, node.right} <= tree.nodes && Ready(tree.Now(), node, node.right, node.right.left, up)
    modifies tree`root, tree.nodes`parent, tree.nodes`left, tree.nodes`right, tree.nodes`down
    ensures RotatedLeft(old(tree.Now()), tree.Now(), node, old(node.right), up)
  {
    hide RotatedLeft, LeftLinked;
    var right := node.right;
    node.right := right.left;
    if right.left != null {
      right.left.parent := node;
    }
    right.parent := node.parent;
    ghost var h1 := tree.Now();
    assert LeftHalf(old(tree.Now()), h1, node, right);
    Hang(tree, up, node, right, false);
    ghost var h2 := tree.Now();
    LinkLeft(tree, right, node);
    LeftDone(old(tree.Now()), h1, h2, tree.Now(), node, right, up, tree.nodes);
  }

  method TurnLeft(tree: DomainTree, up: Node?, node: Node, ghost k: Way, ghost t: Tree)
    requires t.N? && t.r.N? && Conf(tree.Now(), k, t) && node == t.e.nd && up == Upper(k)
    modifies tree`root, tree.nodes`parent, tree.nodes`left, tree.nodes`right, tree.nodes`down
    ensures Conf(tree.Now(), k, LeftRotation(t))
  {
    hide Conf, Sub, Around, Tidy, WayTidy, Nodes, WayNodes, Upper, LeftRotation, RotatedLeft;
    ghost var h := tree.Now();
    LeftReady(h, k, t);
    LeftRotate(tree, up, node);
    LeftRotated(h, tree.Now(), k, t);
  }

  /** The links after a right rotation at `x`, whose left child was `y`. */
  ghost predicate RotatedRight(h: Heap, h': Heap, x: Node, y: Node, up: Node?) {
    x in h.cells && y in h.cells &&
    var p, b := h.cells[x].parent, h.cells[y].right;
    && Holds(h'.cells, x, h.cells[x].(left := b, parent := y))
    && Holds(h'.cells, y, h.cells[y].(right := x, parent := p))
    && (b != null ==> b in h.cells && Holds(h'.cells, b, h.cells[b].(parent := x)))
    && Hung(h, h', p, up, x, y, h.cells.Keys - {x, y, b})
  }

  ghost function RightRotation(t: Tree): (s: Tree)
    requires t.N? && t.l.N?
    ensures s.N? && s.r.N?
  {
    N(t.l.e, t.l.c, t.l.l, N(t.e, t.c, t.l.r, t.r, t.d), t.l.d)
  }

  lemma RightReady(h: Heap, k: Way, t: Tree)
    requires t.N? && t.l.N? && Conf(h, k, t)
    ensures Ready(h, t.e.nd, t.l.e.nd, Ref(t.l.r), Upper(k)) && OneSide(h, t.e.nd)
    ensures h.cells[t.e.nd].left == t.l.e.nd && h.cells[t.l.e.nd].right == Ref(t.l.r)
  {
    var x, y := t.e.nd, t.l.e.nd;
    assert Sub(h.cells, x, t.l);
    UpperIn(h, k, x);
    RefIn(t.l.r);
    if t.l.r.N? {
      assert Sub(h.cells, y, t.l.r);
    }
    if Above(k) != null {
      OneChild(h, k, x);
    }
  }

  lemma RightOff(k: Way, t: Tree)
    requires t.N? && t.l.N? && Tidy(t) && Nodes(t) !! WayNodes(k)
    ensures var x, y, b, q := t.e.nd, t.l.e.nd, Ref(t.l.r), Spot(k);
      && Off(Nodes(t.r), x, y, b, q) && Off(Nodes(t.d), x, y, b, q)
      && Off(Nodes(t.l.l), x, y, b, q) && Off(Nodes(t.l.d), x, y, b, q)
      && x !in Nodes(t.l.r) && y !in Nodes(t.l.r) && q !in Nodes(t.l.r)
      && x !in WayNodes(k) && y !in WayNodes(k) && b !in WayNodes(k)
  {
    RefIn(t.l.r);
  }

  lemma RightTidy(t: Tree)
    requires t.N? && t.l.N? && Tidy(t)
    ensures Tidy(RightRotation(t)) && Nodes(RightRotation(t)) == Nodes(t) && Tidy(t.l.r)
  {
  }

  lemma RightSame(h: Heap, h': Heap, x: Node, y: Node, k: Way, s: set<Node>)
    requires RotatedRight(h, h', x, y, Upper(k)) && Above(k) == h.cells[x].parent
    requires x !in s && y !in s && Spot(k) !in s
    ensures SameOn(h.cells, h'.cells, s - {h.cells[y].right})
  {
  }

  lemma RightHung(h: Heap, h': Heap, x: Node, y: Node, k: Way)
    requires RotatedRight(h, h', x, y, Upper(k)) && Above(k) == h.cells[x].parent
    requires x !in WayNodes(k) && y !in WayNodes(k) && h.cells[y].right !in WayNodes(k)
    ensures Hung(h, h', Above(k), Upper(k), x, y, WayNodes(k))
  {
    hide WayNodes, Base;
  }

  /** A right rotation turns the subtree that it is done at, and nothing else. */
  lemma RightRotated(h: Heap, h': Heap, k: Way, t: Tree)
    requires t.N? && t.l.N? && Conf(h, k, t) && RotatedRight(h, h', t.e.nd, t.l.e.nd, Upper(k))
    ensures Conf(h', k, RightRotation(t))
  {
    hide Nodes, WayNodes, Tidy, WayTidy, SameOn, Base;
    var m, m', x, y := h.cells, h'.cells, t.e.nd, t.l.e.nd;
    assert Sub(m, x, t.l);
    RightOff(k, t);
    RightTidy(t);
    RightSame(h, h', x, y, k, Nodes(t.r));
    RightSame(h, h', x, y, k, Nodes(t.d));
    RightSame(h, h', x, y, k, Nodes(t.l.r));
    RightSame(h, h', x, y, k, Nodes(t.l.l));
    RightSame(h, h', x, y, k, Nodes(t.l.d));
    RightHung(h, h', x, y, k);
    HungAround(h, h', k, x, y);
    SubFrame(m, m', x, t.r);
    SubFrame(m, m', null, t.d);
    SubAdopted(m, m', y, x, t.l.r);
    SubFrame(m, m', y, t.l.l);
    SubFrame(m, m', null, t.l.d);
    assert Sub(m', y, RightRotation(t).r);
  }

  /** The links after the first assignments, before the parent is told. */
  ghost predicate RightHalf(h: Heap, h': Heap, x: Node, y: Node) {
    x in h.cells && y in h.cells && h'.root == h.root &&
    var p, b := h.cells[x].parent, h.cells[y].right;
    && Holds(h'.cells, x, h.cells[x].(left := b))
    && Holds(h'.cells, y, h.cells[y].(parent := p))
    && (b != null ==> b in h.cells && Holds(h'.cells, b, h.cells[b].(parent := x)))
    && SameOn(h.cells, h'.cells, h.cells.Keys - {x, y, b})
  }

  ghost predicate RightLinked(h: Heap, h': Heap, y: Node, x: Node, s: set<Node>) {
    && x in h.cells && Holds(h'.cells, x, h.cells[x].(parent := y))
    && y in h.cells && Holds(h'.cells, y, h.cells[y].(right := x))
    && SameOn(h.cells, h'.cells, s - {x, y}) && h'.root == h.root
  }

  method LinkRight(tree: DomainTree, parent: Node, child: Node)
    requires {parent, child} <= tree.nodes && parent != child
    modifies parent`right, child`parent
    ensures RightLinked(old(tree.Now()), tree.Now(), parent, child, tree.nodes)
  {
    parent.right := child;
    child.parent := parent;
  }

  lemma RightDone(h0: Heap, h1: Heap, h2: Heap, h3: Heap, x: Node, y: Node, up: Node?, s: set<Node>)
    requires x in h0.cells && y in h0.cells && Ready(h0, x, y, h0.cells[y].right, up) && h0.cells.Keys == s
    requires RightHalf(h0, h1, x, y) && Hung(h1, h2, h0.cells[x].parent, up, x, y, s)
    requires RightLinked(h2, h3, y, x, s)
    ensures RotatedRight(h0, h3, x, y, up)
  {
  }

  /** `up` is the node that holds the level, null for the level that the tree itself points to. */
  method RightRotate(tree: DomainTree, up: Node?, node: Node)
    requires {node, node.left} <= tree.nodes && Ready(tree.Now(), node, node.left, node.left.right, up)
    requires OneSide(tree.Now(), node)
    modifies tree`root, tree.nodes`parent, tree.nodes`right, tree.nodes`left, tree.nodes`down
    ensures RotatedRight(old(tree.Now()), tree.Now(), node, old(node.left), up)
  {
    hide RotatedRight, RightLinked;
    var left := node.left;
    node.left := left.right;
    if left.right != null {
      left.right.parent := node;
    }
    left.parent := node.parent;
    ghost var h1 := tree.Now();
    assert RightHalf(old(tree.Now()), h1, node, left);
    Hang(tree, up, node, left, true);
    ghost var h2 := tree.Now();
    LinkRight(tree, left, node);
    RightDone(old(tree.Now()), h1, h2, tree.Now(), node, left, up, tree.nodes);
  }

  method TurnRight(tree: DomainTree, up: Node?, node: Node, ghost k: Way, ghost t: Tree)
    requires t.N? && t.l.N? && Conf(tree.Now(), k, t) && node == t.e.nd && up == Upper(k)
    modifies tree`root, tree.nodes`parent, tree.nodes`right, tree.nodes`left, tree.nodes`down
    ensures Conf(tree.Now(), k, RightRotation(t))
  {
    hide Conf, Sub, Around, Tidy, WayTidy, Nodes, WayNodes, Upper, RightRotation, RotatedRight;
    ghost var h := tree.Now();
    RightReady(h, k, t);
    RightRotate(tree, up, node);
    RightRotated(h, tree.Now(), k, t);
  }

  lemma {:induction false} UpperIn(h: Heap, k: Way, hole: Node?)
    requires Around(h.cells, k, hole, h.root)
    ensures Above(k) != null ==> Above(k) in h.cells && Above(k) in WayNodes(k)
    ensures Upper(k) != null ==> Upper(k) in h.cells && Upper(k) in WayNodes(k)
    decreases k
  {
    if k.InL? || k.InR? {
      UpperIn(h, k.up, k.e.nd);
    }
  }

  /** A node is the left child of its parent or the right one, not both. */
  lemma OneChild(h: Heap, k: Way, x: Node)
    requires Around(h.cells, k, x, h.root) && WayTidy(k) && x !in WayNodes(k) && Above(k) != null
    ensures h.cells[Above(k)].left == x <==> h.cells[Above(k)].right != x
  {
    RefIn(if k.InL? then k.r else k.l);
  }
}
