/** Red-black trees of tree nodes, as shapes over a heap of linked nodes. */
module Trees {
  import opened Names

  datatype Color = Red | Black

  /** What a node stores; `NoData` is the nil of a node that only holds others. */
  datatype Data = NoData | Data(value: int)

  class Node {
    var parent: Node?
    var left: Node?
    var right: Node?
    var down: Node?
    var color: Color
    var name: Name
    var data: Data

    constructor (name: Name)
      ensures parent == null && left == null && right == null && down == null
      ensures color == Red && this.name == name && data == NoData
    {
      parent, left, right, down := null, null, null, null;
      color, this.name, data := Red, name, NoData;
    }
  }

  // The heap as a value.

  datatype Cell = Cell(parent: Node?, left: Node?, right: Node?, down: Node?, color: Color, name: Name, data: Data)

  type Cells = map<Node, Cell>

  /** The nodes of a tree and the pointer to its top. */
  datatype Heap = Heap(cells: Cells, root: Node?)

  // The shape that the links describe: a level is a red-black tree, and each of its nodes may hold a further level.

  datatype Info = Info(nd: Node, name: Name, data: Data)

  datatype Tree = Leaf | N(e: Info, c: Color, l: Tree, r: Tree, d: Tree)

  /** A tree with a hole: the way up from the hole to the top. */
  datatype Way =
    | Top
    | InL(e: Info, c: Color, r: Tree, d: Tree, up: Way)
    | InR(e: Info, c: Color, l: Tree, d: Tree, up: Way)
    | InD(e: Info, c: Color, l: Tree, r: Tree, up: Way)

  function Ref(t: Tree): Node? {
    if t.Leaf? then null else t.e.nd
  }

  /** The parent pointer of what stands in the hole. */
  function Above(k: Way): Node? {
    if k.InL? || k.InR? then k.e.nd else null
  }

  ghost function Depth(k: Way): nat {
    if k.Top? then 0 else 1 + Depth(k.up)
  }

  /** The way from the level of the hole on. */
  function Base(k: Way): (b: Way)
    ensures (b.Top? || b.InD?) && Depth(b) <= Depth(k)
  {
    if k.InL? || k.InR? then Base(k.up) else k
  }

  /** The node that holds the level of the hole, null for the top level. */
  function Upper(k: Way): Node? {
    if Base(k).Top? then null else Base(k).e.nd
  }

  /** The node whose pointer leads into the hole. */
  function Spot(k: Way): Node? {
    if k.Top? then null else k.e.nd
  }

  ghost function Nodes(t: Tree): set<Node> {
    match t
    case Leaf => {}
    case N(e, _, l, r, d) => {e.nd} + Nodes(l) + Nodes(r) + Nodes(d)
  }

  ghost function WayNodes(k: Way): set<Node> {
    match k
    case Top => {}
    case InL(e, _, a, b, up) => {e.nd} + Nodes(a) + Nodes(b) + WayNodes(up)
    case InR(e, _, a, b, up) => {e.nd} + Nodes(a) + Nodes(b) + WayNodes(up)
    case InD(e, _, a, b, up) => {e.nd} + Nodes(a) + Nodes(b) + WayNodes(up)
  }

  ghost predicate Holds(m: Cells, nd: Node, c: Cell) {
    nd in m && m[nd] == c
  }

  ghost function CellOf(e: Info, c: Color, p: Node?, l: Node?, r: Node?, d: Node?): Cell {
    Cell(p, l, r, d, c, e.name, e.data)
  }

  /** The links below `p` describe `t`. */
  ghost predicate Sub(m: Cells, p: Node?, t: Tree)
    decreases t
  {
    match t
    case Leaf => true
    case N(e, c, l, r, d) =>
      && Holds(m, e.nd, CellOf(e, c, p, Ref(l), Ref(r), Ref(d)))
      && Sub(m, e.nd, l) && Sub(m, e.nd, r) && Sub(m, null, d)
  }

  ghost predicate Apart(nd: Node, a: Tree, b: Tree) {
    nd !in Nodes(a) && nd !in Nodes(b) && Nodes(a) !! Nodes(b)
  }

  ghost predicate Tidy(t: Tree) {
    match t
    case Leaf => true
    case N(e, _, l, r, d) =>
      && Apart(e.nd, l, r) && e.nd !in Nodes(d) && Nodes(l) !! Nodes(d) && Nodes(r) !! Nodes(d)
      && Tidy(l) && Tidy(r) && Tidy(d)
  }

  ghost predicate WayTidy(k: Way) {
    match k
    case Top => true
    case InL(e, _, a, b, up) =>
      Apart(e.nd, a, b) && Tidy(a) && Tidy(b) && WayTidy(up) && ({e.nd} + Nodes(a) + Nodes(b)) !! WayNodes(up)
    case InR(e, _, a, b, up) =>
      Apart(e.nd, a, b) && Tidy(a) && Tidy(b) && WayTidy(up) && ({e.nd} + Nodes(a) + Nodes(b)) !! WayNodes(up)
    case InD(e, _, a, b, up) =>
      Apart(e.nd, a, b) && Tidy(a) && Tidy(b) && WayTidy(up) && ({e.nd} + Nodes(a) + Nodes(b)) !! WayNodes(up)
  }

  /** The links around a hole that `hole` fills. */
  ghost predicate Around(m: Cells, k: Way, hole: Node?, root: Node?)
    decreases k
  {
    match k
    case Top => hole == root
    case InL(e, c, r, d, up) =>
      && Holds(m, e.nd, CellOf(e, c, Above(up), hole, Ref(r), Ref(d)))
      && Sub(m, e.nd, r) && Sub(m, null, d) && Around(m, up, e.nd, root)
    case InR(e, c, l, d, up) =>
      && Holds(m, e.nd, CellOf(e, c, Above(up), Ref(l), hole, Ref(d)))
      && Sub(m, e.nd, l) && Sub(m, null, d) && Around(m, up, e.nd, root)
    case InD(e, c, l, r, up) =>
      && Holds(m, e.nd, CellOf(e, c, Above(up), Ref(l), Ref(r), hole))
      && Sub(m, e.nd, l) && Sub(m, e.nd, r) && Around(m, up, e.nd, root)
  }

  /** The heap holds the tree `t` in the hole of `k`. */
  ghost predicate Conf(h: Heap, k: Way, t: Tree) {
    && Around(h.cells, k, Ref(t), h.root) && Sub(h.cells, Above(k), t)
    && Tidy(t) && WayTidy(k) && Nodes(t) !! WayNodes(k)
  }

  ghost predicate SameOn(m: Cells, m': Cells, s: set<Node>) {
    forall o :: o in s && o in m ==> o in m' && m'[o] == m[o]
  }

  lemma {:induction false} SubFrame(m: Cells, m': Cells, p: Node?, t: Tree)
    requires Sub(m, p, t) && SameOn(m, m', Nodes(t))
    ensures Sub(m', p, t)
    decreases t
  {
    if t.N? {
      SubFrame(m, m', t.e.nd, t.l);
      SubFrame(m, m', t.e.nd, t.r);
      SubFrame(m, m', null, t.d);
    }
  }

  lemma {:induction false} AroundFrame(m: Cells, m': Cells, k: Way, hole: Node?, root: Node?)
    requires Around(m, k, hole, root) && SameOn(m, m', WayNodes(k))
    ensures Around(m', k, hole, root)
    decreases k
  {
    match k {
      case Top =>
      case InL(e, c, r, d, up) =>
        SubFrame(m, m', e.nd, r);
        SubFrame(m, m', null, d);
        AroundFrame(m, m', up, e.nd, root);
      case InR(e, c, l, d, up) =>
        SubFrame(m, m', e.nd, l);
        SubFrame(m, m', null, d);
        AroundFrame(m, m', up, e.nd, root);
      case InD(e, c, l, r, up) =>
        SubFrame(m, m', e.nd, l);
        SubFrame(m, m', e.nd, r);
        AroundFrame(m, m', up, e.nd, root);
    }
  }

  /** A subtree hung elsewhere: only the parent link of its top changes. */
  lemma SubAdopted(m: Cells, m': Cells, q: Node?, p: Node?, t: Tree)
    requires Sub(m, q, t) && Tidy(t)
    requires t.N? ==> t.e.nd in m && t.e.nd in m' && m'[t.e.nd] == m[t.e.nd].(parent := p)
    requires SameOn(m, m', Nodes(t) - {Ref(t)})
    ensures Sub(m', p, t)
  {
    if t.N? {
      SubFrame(m, m', t.e.nd, t.l);
      SubFrame(m, m', t.e.nd, t.r);
      SubFrame(m, m', null, t.d);
    }
  }

  /** A child pointer to `x` becomes one to `y`. */
  function Relinked(c: Cell, x: Node?, y: Node?): Cell {
    if c.left == x then c.(left := y) else c.(right := y)
  }

  /** Of the nodes in `s`, only the pointer to `x` changes, to `y`: in the parent, or above the level. */
  ghost predicate Hung(h: Heap, h': Heap, p: Node?, up: Node?, x: Node?, y: Node?, s: set<Node>) {
    if p != null then
      p in h.cells && Holds(h'.cells, p, Relinked(h.cells[p], x, y)) && h'.root == h.root
        && SameOn(h.cells, h'.cells, s - {p})
    else if up != null then
      up in h.cells && Holds(h'.cells, up, h.cells[up].(down := y)) && h'.root == h.root
        && SameOn(h.cells, h'.cells, s - {up})
    else
      h'.root == y && SameOn(h.cells, h'.cells, s)
  }

  lemma HungAround(h: Heap, h': Heap, k: Way, x: Node, y: Node?)
    requires Around(h.cells, k, x, h.root) && WayTidy(k) && x !in WayNodes(k)
    requires Hung(h, h', Above(k), Upper(k), x, y, WayNodes(k))
    ensures Around(h'.cells, k, y, h'.root)
  {
    hide Sub, Nodes, Tidy;
    var m, m' := h.cells, h'.cells;
    match k {
      case Top =>
      case InL(e, c, r, d, up) =>
        SubFrame(m, m', e.nd, r);
        SubFrame(m, m', null, d);
        AroundFrame(m, m', up, e.nd, h.root);
      case InR(e, c, l, d, up) =>
        RefIn(l);
        SubFrame(m, m', e.nd, l);
        SubFrame(m, m', null, d);
        AroundFrame(m, m', up, e.nd, h.root);
      case InD(e, c, l, r, up) =>
        SubFrame(m, m', e.nd, l);
        SubFrame(m, m', e.nd, r);
        AroundFrame(m, m', up, e.nd, h.root);
    }
  }

  lemma RefIn(t: Tree)
    ensures t.N? ==> t.e.nd in Nodes(t)
  {
  }

  class DomainTree {
    var root: Node?
    var nodeCount: int
    const returnEmptyNode: bool

    /** The nodes that this tree may link, and the shape that their links describe. */
    ghost var nodes: set<Node>
    ghost var shape: Tree

    constructor (returnEmptyNode: bool)
      ensures root == null && nodeCount == 0 && nodes == {} && shape == Leaf && this.returnEmptyNode == returnEmptyNode
    {
      root, nodeCount, nodes, shape := null, 0, {}, Leaf;
      this.returnEmptyNode := returnEmptyNode;
    }

    /** The links as a value. */
    ghost function Now(): (h: Heap)
      reads `root, `nodes, nodes
      ensures h.cells.Keys == nodes
    {
      Heap(map o | o in nodes :: Cell(o.parent, o.left, o.right, o.down, o.color, o.name, o.data), root)
    }
  }

  function Dyed(t: Tree, c: Color): Tree {
    if t.Leaf? then t else N(t.e, c, t.l, t.r, t.d)
  }

  // Moving the hole.

  function Fill(k: Way, t: Tree): (r: Tree)
    requires !k.Top?
    ensures r.N? && r.e == k.e && r.c == k.c
  {
    match k
    case InL(e, c, r, d, _) => N(e, c, t, r, d)
    case InR(e, c, l, d, _) => N(e, c, l, t, d)
    case InD(e, c, l, r, _) => N(e, c, l, r, t)
  }

  lemma ConfParts(h: Heap, k: Way, t: Tree)
    requires Conf(h, k, t)
    ensures Around(h.cells, k, Ref(t), h.root) && Sub(h.cells, Above(k), t)
    ensures Tidy(t) && WayTidy(k) && Nodes(t) !! WayNodes(k)
  {
  }

  lemma ConfUp(h: Heap, k: Way, t: Tree)
    requires !k.Top? && Conf(h, k, t)
    ensures Conf(h, k.up, Fill(k, t))
  {
  }

  lemma ConfLeft(h: Heap, k: Way, t: Tree)
    requires t.N? && Conf(h, k, t)
    ensures Conf(h, InL(t.e, t.c, t.r, t.d, k), t.l)
  {
  }

  lemma ConfRight(h: Heap, k: Way, t: Tree)
    requires t.N? && Conf(h, k, t)
    ensures Conf(h, InR(t.e, t.c, t.l, t.d, k), t.r)
  {
  }

  lemma ConfDown(h: Heap, k: Way, t: Tree)
    requires t.N? && Conf(h, k, t)
    ensures Conf(h, InD(t.e, t.c, t.l, t.r, k), t.d)
  {
  }

  /** The links of the node in the hole. */
  lemma ConfCell(h: Heap, k: Way, t: Tree)
    requires t.N? && Conf(h, k, t)
    ensures Holds(h.cells, t.e.nd, CellOf(t.e, t.c, Above(k), Ref(t.l), Ref(t.r), Ref(t.d)))
  {
  }
}
