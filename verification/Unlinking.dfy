/** Taking a node out of its level: `exchange`, `connectChild` and the splice of `Remove`. */
module Unlinking {
  import opened Names
  import opened Trees
  import opened Rotations
  import opened RedBlack
  import opened InsertBalance
  import opened RemoveBalance

  // The rightmost node of a tree, and the way to it.

  function Last(t: Tree): (m: Tree)
    requires t.N?
    ensures m.N? && m.r.Leaf?
    decreases t
  {
    if t.r.Leaf? then t else Last(t.r)
  }

  function RightWay(t: Tree, k: Way): Way
    requires t.N?
    decreases t
  {
    if t.r.Leaf? then k else RightWay(t.r, InR(t.e, t.c, t.l, t.d, k))
  }

  /** What stands in the hole of `k` when `hole` is at the end of the way. */
  function SpineRef(t: Tree, hole: Node?): Node?
    requires t.N?
  {
    if t.r.Leaf? then hole else t.e.nd
  }

  /** The links of the way from `t` to its rightmost node, `hole` being what is there. */
  ghost predicate Spine(m: Cells, p: Node?, t: Tree, hole: Node?)
    requires t.N?
    decreases t
  {
    t.r.N? ==>
      && Holds(m, t.e.nd, CellOf(t.e, t.c, p, Ref(t.l), SpineRef(t.r, hole), Ref(t.d)))
      && Sub(m, t.e.nd, t.l) && Sub(m, null, t.d) && Spine(m, t.e.nd, t.r, hole)
  }

  /** The parent of what is at the end of the way. */
  function SpineEnd(t: Tree, p: Node?): Node?
    requires t.N?
    decreases t
  {
    if t.r.Leaf? then p else SpineEnd(t.r, t.e.nd)
  }

  lemma {:induction false} SpineOf(m: Cells, p: Node?, t: Tree)
    requires t.N? && Sub(m, p, t) && Tidy(t)
    ensures Spine(m, p, t, Last(t).e.nd) && Sub(m, SpineEnd(t, p), Last(t)) && Tidy(Last(t))
    ensures Nodes(Last(t)) <= Nodes(t) && SpineRef(t, Last(t).e.nd) == t.e.nd
    ensures t.r.N? ==> SpineEnd(t, p) in Nodes(t) - Nodes(Last(t)) && t.e.nd in Nodes(t) - Nodes(Last(t))
    decreases t
  {
    if t.r.N? {
      SpineOf(m, t.e.nd, t.r);
      RefIn(t.r);
    }
  }

  lemma {:induction false} SpineAround(m: Cells, t: Tree, k: Way, hole: Node?, root: Node?)
    requires t.N? && Spine(m, Above(k), t, hole) && Around(m, k, SpineRef(t, hole), root)
    ensures Around(m, RightWay(t, k), hole, root) && Above(RightWay(t, k)) == SpineEnd(t, Above(k))
    decreases t
  {
    if t.r.N? {
      SpineAround(m, t.r, InR(t.e, t.c, t.l, t.d, k), hole, root);
    }
  }

  /** A cell of the way after its top got another parent and its end another right child. */
  function Bent(c: Cell, o: Node, top: Node, p: Node?, end: Node?, hole: Node?): Cell {
    var c1 := if o == top then c.(parent := p) else c;
    if o == end then c1.(right := hole) else c1
  }

  ghost predicate BentOn(m: Cells, m': Cells, s: set<Node>, top: Node, p: Node?, end: Node?, hole: Node?) {
    forall o :: o in s && o in m ==> o in m' && m'[o] == Bent(m[o], o, top, p, end, hole)
  }

  lemma BentSame(m: Cells, m': Cells, s: set<Node>, top: Node, p: Node?, end: Node?, hole: Node?, s': set<Node>)
    requires BentOn(m, m', s, top, p, end, hole) && s' <= s && top !in s' && end !in s'
    ensures SameOn(m, m', s')
  {
  }

  lemma BentBelow(m: Cells, m': Cells, s: set<Node>, top: Node, p: Node?, end: Node?, hole: Node?, s': set<Node>,
                  top': Node)
    requires BentOn(m, m', s, top, p, end, hole) && s' <= s && top !in s' && top' in m && m[top'].parent == top
    ensures BentOn(m, m', s', top', top, end, hole)
  {
  }

  lemma {:induction false} SpineMoved(m: Cells, m': Cells, p: Node?, p': Node?, t: Tree, hole: Node?, hole': Node?)
    requires t.N? && t.r.N? && Tidy(t) && Spine(m, p, t, hole)
    requires BentOn(m, m', Nodes(t) - Nodes(Last(t)), t.e.nd, p', SpineEnd(t, p), hole')
    ensures Spine(m', p', t, hole')
    decreases t
  {
    var end, top, s := SpineEnd(t, p), t.e.nd, Nodes(t) - Nodes(Last(t));
    SpineEndIn(t, p);
    LastWithin(t.r);
    assert top in s && Nodes(t.l) <= s - {top, end} && Nodes(t.d) <= s - {top, end} && Tidy(t.r);
    assert Nodes(t.r) - Nodes(Last(t)) <= s - {top};
    assert Holds(m', top, Bent(m[top], top, top, p', end, hole'));
    hide Nodes, Tidy, Sub, BentOn;
    BentSame(m, m', s, top, p', end, hole', Nodes(t.l));
    SubFrame(m, m', top, t.l);
    BentSame(m, m', s, top, p', end, hole', Nodes(t.d));
    SubFrame(m, m', null, t.d);
    if t.r.r.N? {
      BentBelow(m, m', s, top, p', end, hole', Nodes(t.r) - Nodes(Last(t)), t.r.e.nd);
      SpineMoved(m, m', top, top, t.r, hole, hole');
    }
  }

  lemma {:induction false} SpineEndIn(t: Tree, p: Node?)
    requires t.N? && t.r.N? && Tidy(t)
    ensures SpineEnd(t, p) in Nodes(t) - Nodes(t.l) - Nodes(t.d)
    ensures t.r.r.N? ==> SpineEnd(t, p) in Nodes(t.r)
    ensures t.r.r.Leaf? ==> SpineEnd(t, p) == t.e.nd
    decreases t
  {
    if t.r.r.N? {
      SpineEndIn(t.r, t.e.nd);
    }
  }

  lemma {:induction false} LastWithin(t: Tree)
    requires t.N?
    ensures Nodes(Last(t)) <= Nodes(t)
    decreases t
  {
    if t.r.N? {
      LastWithin(t.r);
    }
  }

  /** The links after `exchange` of `n` with `w`, the rightmost node to its left. */
  ghost predicate Exchanged(h: Heap, h': Heap, n: Node, w: Node, up: Node?) {
    n in h.cells && w in h.cells &&
    var p, lc, rc, q, b := h.cells[n].parent, h.cells[n].left, h.cells[n].right, h.cells[w].parent, h.cells[w].left;
    && Holds(h'.cells, n,
             h.cells[n].(left := b, right := null, parent := if q == n then w else q, color := h.cells[w].color))
    && Holds(h'.cells, w,
             h.cells[w].(left := if lc == w then n else lc, right := rc, parent := p, color := h.cells[n].color))
    && rc in h.cells && Holds(h'.cells, rc, h.cells[rc].(parent := w))
    && (lc != w ==> (
        && lc in h.cells && q in h.cells
        && Holds(h'.cells, lc, Bent(h.cells[lc], lc, lc, w, q, n))
        && Holds(h'.cells, q, Bent(h.cells[q], q, lc, w, q, n))))
    && Hung(h, h', p, up, n, w, h.cells.Keys - {n, w, rc, lc, q})
  }

  /** The way to the rightmost node on the left of `t`, with that node in the place of `t`. */
  function ExchangedWay(k: Way, t: Tree): Way
    requires t.N? && t.l.N?
  {
    var m := Last(t.l);
    RightWay(t.l, InL(m.e, t.c, t.r, m.d, k))
  }

  /** The trees around an exchange share no node. */
  lemma ExchangeOff(h: Heap, k: Way, t: Tree)
    requires Conf(h, k, t) && t.N? && t.l.N?
    ensures var m, n := Last(t.l), t.e.nd;
      && m.e.nd in Nodes(t.l) && Nodes(m.l) <= Nodes(t.l) && Nodes(m.d) <= Nodes(t.l)
      && m.e.nd !in Nodes(m.l) && m.e.nd !in Nodes(m.d)
      && n !in Nodes(t.l) && n !in Nodes(t.r) && Nodes(t.l) !! Nodes(t.r)
      && n !in WayNodes(k) && Nodes(t.l) !! WayNodes(k) && Nodes(t.r) !! WayNodes(k)
      && (t.l.r.N? ==> (
          && SpineEnd(t.l, n) in Nodes(t.l) - Nodes(m) && t.l.e.nd in Nodes(t.l) - Nodes(m)
          && m.e.nd != t.l.e.nd && m.e.nd != SpineEnd(t.l, n)))
      && (t.l.r.Leaf? ==> SpineEnd(t.l, n) == n && m == t.l)
      && Holds(h.cells, m.e.nd, CellOf(m.e, m.c, SpineEnd(t.l, n), Ref(m.l), null, Ref(m.d)))
      && Sub(h.cells, m.e.nd, m.l) && Sub(h.cells, null, m.d) && Spine(h.cells, n, t.l, m.e.nd)
      && Nodes(m.l) !! Nodes(m.d) && Tidy(m.l) && Tidy(m.d)
  {
    assert Sub(h.cells, t.e.nd, t.l);
    SpineOf(h.cells, t.e.nd, t.l);
    RefIn(Last(t.l));
  }

  lemma ExchangeSame(h: Heap, h': Heap, k: Way, n: Node, w: Node, s: set<Node>)
    requires Exchanged(h, h', n, w, Upper(k)) && Above(k) == h.cells[n].parent
    requires n !in s && w !in s && h.cells[n].left !in s && h.cells[w].parent !in s && Spot(k) !in s
    ensures SameOn(h.cells, h'.cells, s - {h.cells[n].right})
  {
    hide Bent;
  }

  lemma ExchangeHung(h: Heap, h': Heap, k: Way, n: Node, w: Node)
    requires Exchanged(h, h', n, w, Upper(k)) && Above(k) == h.cells[n].parent
    requires Around(h.cells, k, n, h.root) && WayTidy(k)
    requires n !in WayNodes(k) && w !in WayNodes(k) && h.cells[n].left !in WayNodes(k)
    requires h.cells[n].right !in WayNodes(k) && h.cells[w].parent !in WayNodes(k)
    ensures Around(h'.cells, k, w, h'.root)
  {
    hide Base, Bent, Sub, Around, WayTidy, WayNodes;
    assert Hung(h, h', Above(k), Upper(k), n, w, WayNodes(k));
    HungAround(h, h', k, n, w);
  }

  lemma ExchangeSpine(h: Heap, h': Heap, k: Way, t: Tree)
    requires Conf(h, k, t) && t.N? && t.l.N? && t.r.N? && t.l.r.N?
    requires Exchanged(h, h', t.e.nd, Last(t.l).e.nd, Upper(k))
    ensures Spine(h'.cells, Last(t.l).e.nd, t.l, t.e.nd)
  {
    var n, w, s := t.e.nd, Last(t.l).e.nd, Nodes(t.l) - Nodes(Last(t.l));
    ConfCell(h, k, t);
    ExchangeOff(h, k, t);
    RefIn(t.r);
    RefIn(Last(t.l));
    UpperIn(h, k, n);
    assert Tidy(t.l);
    hide Nodes, Tidy, WayTidy, WayNodes, Base, Sub, Around, Spine, Last, SpineEnd, Bent;
    var lc, q := t.l.e.nd, SpineEnd(t.l, n);
    ExchangeSame(h, h', k, n, w, s - {lc, q});
    BentRest(h.cells, h'.cells, s, lc, w, q, n);
    SpineMoved(h.cells, h'.cells, n, w, t.l, w, n);
  }

  lemma BentRest(m: Cells, m': Cells, s: set<Node>, top: Node, p: Node?, end: Node, hole: Node?)
    requires SameOn(m, m', s - {top, end})
    requires top in m && Holds(m', top, Bent(m[top], top, top, p, end, hole))
    requires end in m && Holds(m', end, Bent(m[end], end, top, p, end, hole))
    ensures BentOn(m, m', s, top, p, end, hole)
  {
  }

  lemma ExchangeRight(h: Heap, h': Heap, k: Way, t: Tree)
    requires Conf(h, k, t) && t.N? && t.l.N? && t.r.N?
    requires Exchanged(h, h', t.e.nd, Last(t.l).e.nd, Upper(k))
    ensures Sub(h'.cells, Last(t.l).e.nd, t.r)
  {
    var n, w := t.e.nd, Last(t.l).e.nd;
    ConfCell(h, k, t);
    ExchangeOff(h, k, t);
    RefIn(t.r);
    RefIn(t.l);
    UpperIn(h, k, n);
    assert Sub(h.cells, n, t.r) && Tidy(t.r);
    hide Nodes, Tidy, WayTidy, WayNodes, Base, Around, Spine, Last, SpineEnd;
    ExchangeSame(h, h', k, n, w, Nodes(t.r));
    SubAdopted(h.cells, h'.cells, n, w, t.r);
  }

  lemma ExchangedAround(h: Heap, h': Heap, k: Way, t: Tree)
    requires Conf(h, k, t) && t.N? && t.l.N? && t.r.N? && t.d.Leaf?
    requires Exchanged(h, h', t.e.nd, Last(t.l).e.nd, Upper(k))
    ensures var m, k' := Last(t.l), ExchangedWay(k, t);
      && Around(h'.cells, k', t.e.nd, h'.root) && Sub(h'.cells, m.e.nd, m.l)
      && Holds(h'.cells, t.e.nd, CellOf(t.e, m.c, Above(k'), Ref(m.l), null, null))
  {
    var n, m := t.e.nd, Last(t.l);
    var w := m.e.nd;
    ConfCell(h, k, t);
    ExchangeOff(h, k, t);
    RefIn(t.l);
    RefIn(t.r);
    UpperIn(h, k, n);
    ExchangeRight(h, h', k, t);
    if t.l.r.N? {
      ExchangeSpine(h, h', k, t);
    }
    hide Nodes, Tidy, WayTidy, WayNodes, Base, Sub;
    ExchangeHung(h, h', k, n, w);
    ExchangeSame(h, h', k, n, w, Nodes(m.l));
    ExchangeSame(h, h', k, n, w, Nodes(m.d));
    SubFrame(h.cells, h'.cells, null, m.d);
    SubFrame(h.cells, h'.cells, w, m.l);
    SpineAround(h'.cells, t.l, InL(m.e, t.c, t.r, m.d, k), n, h'.root);
  }

  // The splice: the node in the hole is replaced by its only child.

  ghost predicate Spliced(h: Heap, h': Heap, p: Node?, up: Node?, n: Node, child: Node?) {
    && (child != null ==> child in h.cells && Holds(h'.cells, child, h.cells[child].(parent := p)))
    && Hung(h, h', p, up, n, child, h.cells.Keys - {child})
  }

  lemma SplicedConf(h: Heap, h': Heap, k: Way, n: Node, q: Node?, s: Tree)
    requires Around(h.cells, k, n, h.root) && WayTidy(k) && n !in WayNodes(k)
    requires Sub(h.cells, q, s) && Tidy(s) && Nodes(s) !! WayNodes(k) && n !in Nodes(s)
    requires Spliced(h, h', Above(k), Upper(k), n, Ref(s))
    ensures Conf(h', k, s)
  {
    hide Nodes, Tidy, WayTidy, WayNodes, Base, Sub, Around;
    RefIn(s);
    SpotIn(k);
    SplicedSame(h, h', k, n, Ref(s), Nodes(s));
    assert Hung(h, h', Above(k), Upper(k), n, Ref(s), WayNodes(k));
    HungAround(h, h', k, n, Ref(s));
    SubAdopted(h.cells, h'.cells, q, Above(k), s);
  }

  lemma SpotIn(k: Way)
    ensures !k.Top? ==> Spot(k) in WayNodes(k)
  {
  }

  lemma SplicedSame(h: Heap, h': Heap, k: Way, n: Node, child: Node?, s: set<Node>)
    requires Spliced(h, h', Above(k), Upper(k), n, child) && Spot(k) !in s
    ensures SameOn(h.cells, h'.cells, s - {child})
  {
  }

  ghost predicate CanConnect(h: Heap, n: Node, x: Node, up: Node?) {
    n in h.cells &&
    var p := h.cells[n].parent;
    && (p != null ==> p in h.cells && (h.cells[p].left == x || h.cells[p].right == x))
    && (p == null && up != null ==> up in h.cells && h.cells[up].left != x && h.cells[up].right != x)
  }

  method ConnectChild(tree: DomainTree, node: Node, oldNode: Node, newNode: Node?, upperNode: Node?)
    requires CanConnect(tree.Now(), node, oldNode, upperNode)
    modifies tree`root, tree.nodes`left, tree.nodes`right, tree.nodes`down
    ensures Hung(old(tree.Now()), tree.Now(), old(tree.Now()).cells[node].parent, upperNode, oldNode, newNode,
      tree.nodes)
  {
    var connectNode := if node.parent != null then node.parent else upperNode;
    if connectNode != null {
      if connectNode.left == oldNode {
        connectNode.left := newNode;
      } else if connectNode.right == oldNode {
        connectNode.right := newNode;
      } else {
        connectNode.down := newNode;
      }
    } else {
      tree.root := newNode;
    }
  }

  /** The two nodes exchange their links and colours. */
  ghost predicate LinksSwapped(h: Heap, h': Heap, n: Node, w: Node) {
    n in h.cells && w in h.cells && h'.root == h.root &&
    var lc, rc, q := h.cells[n].left, h.cells[n].right, h.cells[w].parent;
    && Holds(h'.cells, n, h.cells[n].(left := h.cells[w].left, right := h.cells[w].right,
                                      parent := if q == n then w else q, color := h.cells[w].color))
    && Holds(h'.cells, w, h.cells[w].(left := if lc == w then n else lc, right := if rc == w then n else rc,
                                      parent := h.cells[n].parent, color := h.cells[n].color))
    && SameOn(h.cells, h'.cells, h.cells.Keys - {n, w})
  }

  ghost predicate ChildrenSwapped(h: Heap, h': Heap, n: Node, w: Node) {
    n in h.cells && w in h.cells && h'.root == h.root &&
    var lc, rc := h.cells[n].left, h.cells[n].right;
    && Holds(h'.cells, n, h.cells[n].(left := h.cells[w].left, right := h.cells[w].right))
    && Holds(h'.cells, w, h.cells[w].(left := if lc == w then n else lc, right := if rc == w then n else rc))
    && SameOn(h.cells, h'.cells, h.cells.Keys - {n, w})
  }

  method SwapChildren(tree: DomainTree, node: Node, lowerNode: Node)
    requires {node, lowerNode} <= tree.nodes && node != lowerNode
    modifies node`left, node`right, lowerNode`left, lowerNode`right
    ensures ChildrenSwapped(old(tree.Now()), tree.Now(), node, lowerNode)
  {
    node.left, lowerNode.left := lowerNode.left, node.left;
    if lowerNode.left == lowerNode {
      lowerNode.left := node;
    }
    node.right, lowerNode.right := lowerNode.right, node.right;
    if lowerNode.right == lowerNode {
      lowerNode.right := node;
    }
  }

  ghost predicate ParentsSwapped(h: Heap, h': Heap, n: Node, w: Node) {
    n in h.cells && w in h.cells && h'.root == h.root &&
    var q := h.cells[w].parent;
    && Holds(h'.cells, n, h.cells[n].(parent := if q == n then w else q, color := h.cells[w].color))
    && Holds(h'.cells, w, h.cells[w].(parent := h.cells[n].parent, color := h.cells[n].color))
    && SameOn(h.cells, h'.cells, h.cells.Keys - {n, w})
  }

  method SwapParents(tree: DomainTree, node: Node, lowerNode: Node)
    requires {node, lowerNode} <= tree.nodes && node != lowerNode
    modifies node`parent, node`color, lowerNode`parent, lowerNode`color
    ensures ParentsSwapped(old(tree.Now()), tree.Now(), node, lowerNode)
  {
    node.parent, lowerNode.parent := lowerNode.parent, node.parent;
    if node.parent == node {
      node.parent := lowerNode;
    }
    node.color, lowerNode.color := lowerNode.color, node.color;
  }

  lemma BothSwapped(h: Heap, h1: Heap, h2: Heap, n: Node, w: Node)
    requires n != w && ChildrenSwapped(h, h1, n, w) && ParentsSwapped(h1, h2, n, w) && h.cells.Keys == h1.cells.Keys
    ensures LinksSwapped(h, h2, n, w)
  {
  }

  method SwapLinks(tree: DomainTree, node: Node, lowerNode: Node)
    requires {node, lowerNode} <= tree.nodes && node != lowerNode
    modifies node`parent, node`left, node`right, node`color
    modifies lowerNode`parent, lowerNode`left, lowerNode`right, lowerNode`color
    ensures LinksSwapped(old(tree.Now()), tree.Now(), node, lowerNode)
  {
    hide *;
    ghost var h := tree.Now();
    SwapChildren(tree, node, lowerNode);
    ghost var h1 := tree.Now();
    SwapParents(tree, node, lowerNode);
    BothSwapped(h, h1, tree.Now(), node, lowerNode);
  }

  /** The nodes around an exchange of `n` with `w` are different ones. */
  ghost predicate CanExchange(h: Heap, n: Node, w: Node, up: Node?) {
    n in h.cells && w in h.cells && n != w && h.cells[w].right == null &&
    var p, lc, rc, q := h.cells[n].parent, h.cells[n].left, h.cells[n].right, h.cells[w].parent;
    && {lc, rc, q} <= h.cells.Keys && rc !in {n, w, lc, q} && (lc == w <==> q == n)
    && (lc != w ==> lc != n && q != w && h.cells[q].right == w && h.cells[q].left != w)
    && (p != null ==> p in h.cells && p !in {n, w, lc, rc, q} && (h.cells[p].left == n <==> h.cells[p].right != n))
    && (up != null ==> up in h.cells && up !in {n, w, lc, rc, q} && h.cells[up].left != n && h.cells[up].right != n)
  }

  lemma ExchangeReady(h: Heap, k: Way, t: Tree)
    requires Conf(h, k, t) && t.N? && t.l.N? && t.r.N?
    ensures CanExchange(h, t.e.nd, Last(t.l).e.nd, Upper(k))
  {
    hide Conf, Nodes, Tidy, WayTidy, WayNodes, Sub, Around, Spine, Last, SpineEnd, Base;
    var n, w := t.e.nd, Last(t.l).e.nd;
    ConfParts(h, k, t);
    ConfCell(h, k, t);
    ConfLeft(h, k, t);
    var kl := InL(t.e, t.c, t.r, t.d, k);
    ConfParts(h, kl, t.l);
    ConfCell(h, kl, t.l);
    ConfRight(h, k, t);
    ConfCell(h, InR(t.e, t.c, t.l, t.d, k), t.r);
    ExchangeOff(h, k, t);
    RefIn(t.l);
    RefIn(t.r);
    UpperIn(h, k, n);
    if Upper(k) != null {
      UpperLinks(h, k, n);
    }
    if t.l.r.N? {
      SpineEndCell(h.cells, n, t.l, w);
    }
    if Above(k) != null {
      OneChild(h, k, n);
    }
  }

  lemma {:induction false} UpperLinks(h: Heap, k: Way, hole: Node?)
    requires Around(h.cells, k, hole, h.root) && WayTidy(k) && Upper(k) != null
    ensures Upper(k) in h.cells
    ensures h.cells[Upper(k)].left != null ==> h.cells[Upper(k)].left in WayNodes(k)
    ensures h.cells[Upper(k)].right != null ==> h.cells[Upper(k)].right in WayNodes(k)
    decreases k
  {
    if k.InL? || k.InR? {
      UpperLinks(h, k.up, k.e.nd);
    } else {
      RefIn(k.l);
      RefIn(k.r);
    }
  }

  lemma {:induction false} SpineEndCell(m: Cells, p: Node?, t: Tree, hole: Node)
    requires t.N? && t.r.N? && Spine(m, p, t, hole) && hole == Last(t).e.nd && Tidy(t) && Sub(m, p, t)
    ensures SpineEnd(t, p) in m && m[SpineEnd(t, p)].right == hole && m[SpineEnd(t, p)].left != hole
    decreases t
  {
    SpineOf(m, p, t);
    RefIn(t.r);
    RefIn(t.l);
    if t.r.r.N? {
      SpineEndCell(m, t.e.nd, t.r, hole);
    }
  }

  /** One cell changes. */
  ghost predicate OneCell(h: Heap, h': Heap, q: Node?, c: Cell) {
    q in h.cells && Holds(h'.cells, q, c) && SameOn(h.cells, h'.cells, h.cells.Keys - {q}) && h'.root == h.root
  }

  function Turned(c: Cell, w: Node, n: Node): Cell {
    if c.left == w then c.(left := n) else if c.right == w then c.(right := n) else c
  }

  method TellParent(tree: DomainTree, node: Node, lowerNode: Node, ghost q: Node)
    requires node in tree.nodes && q in tree.nodes && tree.Now().cells[node].parent == q
    modifies tree.nodes`left, tree.nodes`right
    ensures OneCell(old(tree.Now()), tree.Now(), q, Turned(old(tree.Now()).cells[q], lowerNode, node))
  {
    if node.parent.left == lowerNode {
      node.parent.left := node;
    } else if node.parent.right == lowerNode {
      node.parent.right := node;
    }
  }

  ghost predicate ChildrenTold(h: Heap, h': Heap, w: Node) {
    w in h.cells && h'.root == h.root &&
    var lc, rc := h.cells[w].left, h.cells[w].right;
    && (rc != null ==> rc in h.cells && Holds(h'.cells, rc, h.cells[rc].(parent := w)))
    && (lc != null ==> lc in h.cells && Holds(h'.cells, lc, h.cells[lc].(parent := w)))
    && SameOn(h.cells, h'.cells, h.cells.Keys - {lc, rc})
  }

  method TellChildren(tree: DomainTree, lowerNode: Node)
    requires lowerNode in tree.nodes
    requires {tree.Now().cells[lowerNode].left, tree.Now().cells[lowerNode].right} <= tree.nodes + {null}
    modifies tree.nodes`parent
    ensures ChildrenTold(old(tree.Now()), tree.Now(), lowerNode)
  {
    if lowerNode.right != null {
      lowerNode.right.parent := lowerNode;
    }
    if lowerNode.left != null {
      lowerNode.left.parent := lowerNode;
    }
  }

  lemma ExchangeCells(h0: Heap, h1: Heap, h2: Heap, h3: Heap, h4: Heap, n: Node, w: Node, q: Node, up: Node?,
                      s: set<Node>)
    requires CanExchange(h0, n, w, up) && h0.cells.Keys == h2.cells.Keys == h3.cells.Keys == s
    requires LinksSwapped(h0, h1, n, w) && Hung(h1, h2, h0.cells[n].parent, up, n, w, s)
    requires n in h2.cells && h2.cells[n].parent == q && q in h2.cells
    requires OneCell(h2, h3, q, Turned(h2.cells[q], w, n)) && ChildrenTold(h3, h4, w)
    ensures var lc, rc, q0 := h0.cells[n].left, h0.cells[n].right, h0.cells[w].parent;
      && Holds(h4.cells, n, h1.cells[n]) && Holds(h4.cells, w, h1.cells[w])
      && Holds(h4.cells, rc, h0.cells[rc].(parent := w))
      && (lc != w ==> Holds(h4.cells, lc, Bent(h0.cells[lc], lc, lc, w, q0, n)))
      && (lc != w ==> Holds(h4.cells, q0, Bent(h0.cells[q0], q0, lc, w, q0, n)))
  {
  }

  lemma ExchangeRest(h0: Heap, h1: Heap, h2: Heap, h3: Heap, h4: Heap, n: Node, w: Node, q: Node, up: Node?,
                     s: set<Node>)
    requires CanExchange(h0, n, w, up) && h0.cells.Keys == h2.cells.Keys == h3.cells.Keys == s
    requires LinksSwapped(h0, h1, n, w) && Hung(h1, h2, h0.cells[n].parent, up, n, w, s)
    requires n in h2.cells && h2.cells[n].parent == q && q in h2.cells
    requires OneCell(h2, h3, q, Turned(h2.cells[q], w, n)) && ChildrenTold(h3, h4, w)
    ensures var lc, rc, q0 := h0.cells[n].left, h0.cells[n].right, h0.cells[w].parent;
      Hung(h0, h4, h0.cells[n].parent, up, n, w, h0.cells.Keys - {n, w, rc, lc, q0})
  {
    var lc, rc, q0 := h0.cells[n].left, h0.cells[n].right, h0.cells[w].parent;
    assert h3.cells[w].right == rc && h3.cells[w].left == if lc == w then n else lc;
    assert q == if q0 == n then w else q0;
    assert SameOn(h2.cells, h4.cells, s - {n, w, rc, lc, q0});
    hide OneCell, ChildrenTold, Turned;
  }

  lemma SwapThen(h0: Heap, h1: Heap, n: Node, w: Node, up: Node?, s: set<Node>)
    requires CanExchange(h0, n, w, up) && LinksSwapped(h0, h1, n, w) && h0.cells.Keys == h1.cells.Keys == s
    ensures CanConnect(h1, w, n, up) && h1.cells[w].parent == h0.cells[n].parent
  {
  }

  lemma ConnectThen(h0: Heap, h1: Heap, h2: Heap, n: Node, w: Node, up: Node?, s: set<Node>)
    requires CanExchange(h0, n, w, up) && LinksSwapped(h0, h1, n, w) && h0.cells.Keys == h2.cells.Keys == s
    requires Hung(h1, h2, h0.cells[n].parent, up, n, w, s)
    ensures n in s && w in s && h2.cells[n].parent in s && h2.cells[w].left in s && h2.cells[w].right in s
  {
  }

  lemma TellThen(h2: Heap, h3: Heap, q: Node, w: Node, n: Node, s: set<Node>)
    requires h2.cells.Keys == h3.cells.Keys == s && q in s && w in s && n in s
    requires OneCell(h2, h3, q, Turned(h2.cells[q], w, n)) && h2.cells[w].left in s && h2.cells[w].right in s
    ensures h3.cells[w].left in s && h3.cells[w].right in s
  {
  }

  lemma ExchangeDone(h0: Heap, h1: Heap, h2: Heap, h3: Heap, h4: Heap, n: Node, w: Node, q: Node, up: Node?,
                     s: set<Node>)
    requires CanExchange(h0, n, w, up) && h0.cells.Keys == h2.cells.Keys == h3.cells.Keys == s
    requires LinksSwapped(h0, h1, n, w) && Hung(h1, h2, h0.cells[n].parent, up, n, w, s)
    requires n in h2.cells && h2.cells[n].parent == q && q in h2.cells
    requires OneCell(h2, h3, q, Turned(h2.cells[q], w, n)) && ChildrenTold(h3, h4, w)
    ensures Exchanged(h0, h4, n, w, up)
  {
    ExchangeCells(h0, h1, h2, h3, h4, n, w, q, up, s);
    ExchangeRest(h0, h1, h2, h3, h4, n, w, q, up, s);
    hide Hung, OneCell, ChildrenTold, Turned, Bent;
  }

  lemma ExchangeStart(h: Heap, n: Node, w: Node, up: Node?)
    requires CanExchange(h, n, w, up)
    ensures n in h.cells && w in h.cells && n != w
  {
  }

  method Exchange(tree: DomainTree, node: Node, lowerNode: Node, upperNode: Node?)
    requires CanExchange(tree.Now(), node, lowerNode, upperNode)
    modifies tree`root, tree.nodes`parent, tree.nodes`left, tree.nodes`right, tree.nodes`down, tree.nodes`color
    ensures Exchanged(old(tree.Now()), tree.Now(), node, lowerNode, upperNode)
  {
    hide *;
    ghost var h0 := tree.Now();
    ExchangeStart(h0, node, lowerNode, upperNode);
    SwapLinks(tree, node, lowerNode);
    ghost var h1 := tree.Now();
    SwapThen(h0, h1, node, lowerNode, upperNode, tree.nodes);
    ConnectChild(tree, lowerNode, node, lowerNode, upperNode);
    ghost var h2 := tree.Now();
    ConnectThen(h0, h1, h2, node, lowerNode, upperNode, tree.nodes);
    ghost var q: Node := h2.cells[node].parent;
    TellParent(tree, node, lowerNode, q);
    ghost var h3 := tree.Now();
    TellThen(h2, h3, q, lowerNode, node, tree.nodes);
    TellChildren(tree, lowerNode);
    ExchangeDone(h0, h1, h2, h3, tree.Now(), node, lowerNode, q, upperNode, tree.nodes);
  }

  // Order and balance around the node that leaves.

  lemma {:induction false} RightWayEntries(t: Tree, k: Way)
    requires t.N?
    ensures Before(RightWay(t, k)) + Entries(Last(t)) == Before(k) + Entries(t)
    ensures After(RightWay(t, k)) == After(k) && Base(RightWay(t, k)) == Base(k)
    decreases t
  {
    if t.r.N? {
      RightWayEntries(t.r, InR(t.e, t.c, t.l, t.d, k));
    }
  }

  lemma ExchangedEntries(k: Way, t: Tree)
    requires t.N? && t.l.N?
    ensures Whole(ExchangedWay(k, t), Last(t.l).l) == Before(k) + Entries(t.l) + Entries(t.r) + After(k)
    ensures Base(ExchangedWay(k, t)) == Base(k)
  {
    var m := Last(t.l);
    var k', x := InL(m.e, t.c, t.r, m.d, k), ExchangedWay(k, t);
    RightWayEntries(t.l, k');
    assert Entries(m) == Entries(m.l) + [Entry(m.e, m.d)];
    Regroup(Before(x), Entries(m.l), Entry(m.e, m.d), Before(k) + Entries(t.l), Entries(t.r), After(k));
  }

  lemma Regroup(a: seq<Entry>, b: seq<Entry>, x: Entry, c: seq<Entry>, r: seq<Entry>, z: seq<Entry>)
    requires a + (b + [x]) == c
    ensures a + b + ([x] + r + z) == c + r + z
  {
    assert a + b + ([x] + r + z) == a + (b + [x]) + r + z;
  }

  /** Two ways that differ only in what their nodes store. */
  predicate Alike(a: Way, b: Way) {
    match (a, b)
    case (InL(_, c, r, _, up), InL(_, c', r', _, up')) => c == c' && r == r' && Alike(up, up')
    case (InR(_, c, l, _, up), InR(_, c', l', _, up')) => c == c' && l == l' && Alike(up, up')
    case _ => !a.InL? && !a.InR? && !b.InL? && !b.InR?
  }

  lemma {:induction false} AlikeSelf(a: Way)
    ensures Alike(a, a)
  {
    if a.InL? || a.InR? {
      AlikeSelf(a.up);
    }
  }

  lemma {:induction false} AlikeRight(t: Tree, a: Way, b: Way)
    requires t.N? && Alike(a, b)
    ensures Alike(RightWay(t, a), RightWay(t, b))
    decreases t
  {
    if t.r.N? {
      AlikeRight(t.r, InR(t.e, t.c, t.l, t.d, a), InR(t.e, t.c, t.l, t.d, b));
    }
  }

  lemma {:induction false} AlikeSame(a: Way, b: Way, n: nat)
    requires Alike(a, b)
    ensures WayEven(a, n) == WayEven(b, n) && WayCalm(a) == WayCalm(b) && TopBlack(a) == TopBlack(b)
    ensures WayCol(a) == WayCol(b) && (Above(a) == null <==> Above(b) == null)
    decreases a
  {
    if a.InL? || a.InR? {
      AlikeSame(a.up, b.up, n + Weight(a.c));
    }
  }

  lemma {:induction false} MendedRight(k: Way, t: Tree, n: nat) returns (m: nat)
    requires t.N? && Mended(k, t, n)
    ensures Mended(RightWay(t, k), Last(t), m)
    decreases t
  {
    m := n;
    if t.r.N? {
      MendedBelow(k, t, n);
      m := MendedRight(InR(t.e, t.c, t.l, t.d, k), t.r, n - Weight(t.c));
    }
  }

  lemma MendedBelow(k: Way, t: Tree, n: nat)
    requires t.N? && Mended(k, t, n)
    ensures n >= Weight(t.c)
    ensures Mended(InL(t.e, t.c, t.r, t.d, k), t.l, n - Weight(t.c))
    ensures Mended(InR(t.e, t.c, t.l, t.d, k), t.r, n - Weight(t.c))
  {
  }

  /** What the colour of a node that leaves means for its only child `s`. */
  ghost predicate Vacated(k: Way, c: Color, s: Tree, n: nat) {
    && (c == Red ==> Mended(k, s, n))
    && (c == Black && Col(s) == Red ==> Mended(k, Dyed(s, Black), n + 1))
    && (c == Black && Col(s) == Black ==> Short(k, s, n))
  }

  lemma VacatedOne(k: Way, t: Tree, n: nat)
    requires t.N? && Mended(k, t, n) && (t.l.Leaf? || t.r.Leaf?)
    ensures n >= Weight(t.c) && Vacated(k, t.c, if t.r.N? then t.r else t.l, n - Weight(t.c))
  {
    var s, m := if t.r.N? then t.r else t.l, n - Weight(t.c);
    assert Even(s, m) && Calm(s);
    assert Col(s) == Red ==> Even(Dyed(s, Black), m + 1) && Calm(Dyed(s, Black));
  }

  lemma VacatedExchanged(k: Way, t: Tree, n: nat) returns (m: nat)
    requires t.N? && t.l.N? && Mended(k, t, n)
    ensures Vacated(ExchangedWay(k, t), Last(t.l).c, Last(t.l).l, m)
  {
    MendedBelow(k, t, n);
    var w := Last(t.l);
    var a, b := InL(t.e, t.c, t.r, t.d, k), InL(w.e, t.c, t.r, w.d, k);
    m := MendedRight(a, t.l, n - Weight(t.c));
    VacatedOne(RightWay(t.l, a), w, m);
    m := m - Weight(w.c);
    AlikeSelf(k);
    AlikeRight(t.l, a, b);
    AlikeSame(RightWay(t.l, a), RightWay(t.l, b), m);
    AlikeSame(RightWay(t.l, a), RightWay(t.l, b), m + 1);
  }

  // Removal from a level.

  method RightMost(tree: DomainTree, node: Node, ghost k: Way, ghost t: Tree) returns (w: Node)
    requires Conf(tree.Now(), k, t) && t.N? && node == t.e.nd
    ensures w == Last(t).e.nd
  {
    hide Conf;
    w := node;
    ghost var k', s := k, t;
    ConfCell(tree.Now(), k', s);
    while w.right != null
      invariant Conf(tree.Now(), k', s) && s.N? && w == s.e.nd && Last(s) == Last(t)
      invariant Holds(tree.Now().cells, w, CellOf(s.e, s.c, Above(k'), Ref(s.l), Ref(s.r), Ref(s.d)))
      decreases s
    {
      ConfRight(tree.Now(), k', s);
      k', s := InR(s.e, s.c, s.l, s.d, k'), s.r;
      w := w.right;
      ConfCell(tree.Now(), k', s);
    }
  }

  /** The node `n` is in the hole, with colour `c` and at most one child, the top of `s`. */
  ghost predicate Leaving(h: Heap, k: Way, n: Node, c: Color, q: Node?, s: Tree) {
    && Around(h.cells, k, n, h.root) && WayTidy(k) && n !in WayNodes(k)
    && Sub(h.cells, q, s) && Tidy(s) && Nodes(s) !! WayNodes(k) && n !in Nodes(s)
    && n in h.cells && h.cells[n].parent == Above(k) && h.cells[n].color == c
    && Ref(s) == if h.cells[n].right != null then h.cells[n].right else h.cells[n].left
  }

  lemma LeavingOne(h: Heap, k: Way, t: Tree)
    requires Conf(h, k, t) && t.N? && (t.l.Leaf? || t.r.Leaf?)
    ensures Leaving(h, k, t.e.nd, t.c, t.e.nd, if t.r.N? then t.r else t.l)
  {
  }

  lemma ExchangedTidy(h: Heap, k: Way, t: Tree)
    requires Conf(h, k, t) && t.N? && t.l.N?
    ensures var k', m := ExchangedWay(k, t), Last(t.l);
      && WayTidy(k') && t.e.nd !in WayNodes(k') && Tidy(m.l) && Nodes(m.l) !! WayNodes(k') && t.e.nd !in Nodes(m.l)
  {
    var m := Last(t.l);
    var b := InL(m.e, t.c, t.r, m.d, k);
    ExchangeOff(h, k, t);
    assert Tidy(t.l) && Tidy(t.r);
    RightWayNodes(t.l, b);
  }

  lemma {:induction false} RightWayNodes(t: Tree, k: Way)
    requires t.N? && Tidy(t) && WayTidy(k) && (Nodes(t) - Nodes(Last(t))) !! WayNodes(k)
    ensures WayTidy(RightWay(t, k)) && Nodes(Last(t)) <= Nodes(t)
    ensures WayNodes(RightWay(t, k)) == WayNodes(k) + (Nodes(t) - Nodes(Last(t)))
    decreases t
  {
    if t.r.N? {
      LastWithin(t.r);
      var k' := InR(t.e, t.c, t.l, t.d, k);
      var own := {t.e.nd} + Nodes(t.l) + Nodes(t.d);
      assert Nodes(t) == own + Nodes(t.r) && own !! Nodes(t.r) && Tidy(t.r);
      assert WayTidy(k') && WayNodes(k') == own + WayNodes(k);
      hide Nodes, Tidy, WayTidy, WayNodes;
      RightWayNodes(t.r, k');
    }
  }

  lemma LeavingExchanged(h: Heap, h': Heap, k: Way, t: Tree)
    requires Conf(h, k, t) && t.N? && t.l.N? && t.r.N? && t.d.Leaf?
    requires Exchanged(h, h', t.e.nd, Last(t.l).e.nd, Upper(k))
    ensures var m := Last(t.l); Leaving(h', ExchangedWay(k, t), t.e.nd, m.c, m.e.nd, m.l)
  {
    hide Conf, Exchanged, Around, Sub, Tidy, WayTidy, Nodes, WayNodes, ExchangedWay, Last, Upper;
    ExchangedAround(h, h', k, t);
    ExchangedTidy(h, k, t);
  }

  lemma LeavingConnect(h: Heap, k: Way, n: Node, c: Color, q: Node?, s: Tree)
    requires Leaving(h, k, n, c, q, s)
    ensures CanConnect(h, n, n, Upper(k)) && (s.N? ==> s.e.nd in h.cells && s.e.nd != n)
  {
    UpperIn(h, k, n);
    if Upper(k) != null {
      UpperLinks(h, k, n);
    }
    if Above(k) != null {
      OneChild(h, k, n);
    }
    RefIn(s);
  }

  /** The child takes the place of its parent in the hole. */
  method Splice(tree: DomainTree, node: Node, upperNode: Node?, ghost k: Way, ghost c: Color, ghost q: Node?,
                ghost s: Tree)
    returns (child: Node?)
    requires node in tree.nodes && Leaving(tree.Now(), k, node, c, q, s) && upperNode == Upper(k)
    modifies tree`root, tree.nodes`parent, tree.nodes`left, tree.nodes`right, tree.nodes`down
    ensures Conf(tree.Now(), k, s) && child == Ref(s) && node.parent == Above(k) && node.color == c
  {
    ghost var h := tree.Now();
    LeavingConnect(h, k, node, c, q, s);
    child := node.left;
    if node.right != null {
      child := node.right;
    }
    hide Leaving, CanConnect, Around, Sub, Tidy, WayTidy, Nodes, WayNodes, Upper, Conf, Hung, Adopted;
    ConnectChild(tree, node, node, child, upperNode);
    ghost var h1 := tree.Now();
    Adopt(tree, node, child);
    SpliceDone(h, h1, tree.Now(), k, node, c, q, s);
  }

  method Adopt(tree: DomainTree, node: Node, child: Node?)
    requires node in tree.nodes && (child != null ==> child in tree.nodes && child != node)
    modifies tree.nodes`parent
    ensures Adopted(old(tree.Now()), tree.Now(), node, child)
  {
    if child != null {
      child.parent := node.parent;
    }
  }

  ghost predicate Adopted(h: Heap, h': Heap, n: Node, child: Node?) {
    && n in h.cells && n in h'.cells && h'.root == h.root && SameOn(h.cells, h'.cells, h.cells.Keys - {child})
    && (child != null ==> child in h.cells && Holds(h'.cells, child, h.cells[child].(parent := h.cells[n].parent)))
  }

  lemma SpliceDone(h: Heap, h1: Heap, h2: Heap, k: Way, n: Node, c: Color, q: Node?, s: Tree)
    requires Leaving(h, k, n, c, q, s) && Hung(h, h1, Above(k), Upper(k), n, Ref(s), h.cells.Keys)
    requires h.cells.Keys == h1.cells.Keys && Adopted(h1, h2, n, Ref(s)) && n in h2.cells
    ensures Conf(h2, k, s) && h2.cells[n].parent == Above(k) && h2.cells[n].color == c
  {
    RefIn(s);
    SpotIn(k);
    UpperIn(h, k, n);
    assert s.N? ==> s.e.nd in h.cells;
    hide Around, Sub, Tidy, WayTidy, Nodes, WayNodes, Conf, Base;
    assert Spliced(h, h2, Above(k), Upper(k), n, Ref(s));
    SplicedConf(h, h2, k, n, q, s);
  }

  /** The level once its node has left: the colours are put right. */
  method MendHole(tree: DomainTree, up: Node?, child: Node?, parent: Node?, color: Color, ghost k: Way, ghost s: Tree,
                  ghost n: nat)
    returns (ghost t': Tree)
    requires Conf(tree.Now(), k, s) && Vacated(k, color, s, n) && child == Ref(s) && parent == Above(k)
    requires up == Upper(k)
    modifies tree`root, tree.nodes`parent, tree.nodes`left, tree.nodes`right, tree.nodes`down, tree.nodes`color
    ensures Conf(tree.Now(), Base(k), t') && Entries(t') == Whole(k, s) && Balanced(t')
  {
    hide Conf, Short, Mended, Whole, Balanced, Entries, Upper, Base;
    if s.N? {
      ConfCell(tree.Now(), k, s);
    }
    if color == Black {
      if child != null && child.color == Red {
        Paint(tree, child, Black, k, s);
        MendedBalanced(tree.Now(), k, Dyed(s, Black), n + 1);
        WholeColor(k, s, Black);
        t' := Closed(k, Dyed(s, Black));
      } else {
        t' := RemoveRebalance(tree, up, child, parent, k, s, n);
      }
    } else {
      MendedBalanced(tree.Now(), k, s, n);
      t' := Closed(k, s);
    }
  }

  lemma WholeColor(k: Way, s: Tree, c: Color)
    ensures Whole(k, Dyed(s, c)) == Whole(k, s)
  {
    ColorEntries(s, c);
  }

  lemma WholeOne(k: Way, t: Tree)
    requires t.N? && (t.l.Leaf? || t.r.Leaf?)
    ensures Whole(k, if t.r.N? then t.r else t.l) == Before(k) + Entries(t.l) + Entries(t.r) + After(k)
  {
  }

  /** A node that holds no level leaves its own: the rest stays in order, and the level is balanced again. */
  method Unlink(tree: DomainTree, node: Node, upperNode: Node?, ghost k: Way, ghost t: Tree, ghost n: nat)
    returns (ghost t': Tree)
    requires Conf(tree.Now(), k, t) && t.N? && node == t.e.nd && t.d.Leaf? && upperNode == Upper(k) && Mended(k, t, n)
    modifies tree`root, tree.nodes`parent, tree.nodes`left, tree.nodes`right, tree.nodes`down, tree.nodes`color
    ensures Conf(tree.Now(), Base(k), t') && Balanced(t')
    ensures Entries(t') == Before(k) + Entries(t.l) + Entries(t.r) + After(k)
  {
    hide Conf, Leaving, Exchanged, CanExchange, Vacated, Mended, Balanced, Entries, Whole, Base, ExchangedWay, Last,
      Before, After;
    ghost var h := tree.Now();
    ConfCell(h, k, t);
    ghost var k', c, q, s, m;
    if node.left != null && node.right != null {
      ConfLeft(h, k, t);
      var rightMost := RightMost(tree, node.left, InL(t.e, t.c, t.r, t.d, k), t.l);
      ExchangeReady(h, k, t);
      Exchange(tree, node, rightMost, upperNode);
      LeavingExchanged(h, tree.Now(), k, t);
      m := VacatedExchanged(k, t, n);
      ExchangedEntries(k, t);
      k', c, q, s := ExchangedWay(k, t), Last(t.l).c, rightMost, Last(t.l).l;
    } else {
      LeavingOne(h, k, t);
      VacatedOne(k, t, n);
      WholeOne(k, t);
      k', c, q, s, m := k, t.c, node, if t.r.N? then t.r else t.l, n - Weight(t.c);
    }
    var child := Splice(tree, node, upperNode, k', c, q, s);
    t' := MendHole(tree, upperNode, child, node.parent, node.color, k', s, m);
  }
}
