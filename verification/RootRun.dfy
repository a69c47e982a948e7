/**
  * What becomes of the links that `insertRoot` of `g53/domaintree/domaintree.go` leaves above a
  * top that is not the root name: the turns of `Insert` and `insertRebalance`, followed from the
  * names on, for two more names. `Insert` has no contract for such links, since they are not
  * those of a tree, so its loops are unrolled here.
  */
module RootRun {
  import opened Octets
  import opened Names
  import opened NameOrder
  import opened NameOps
  import opened Trees
  import opened Rotations
  import opened Zones
  import opened TreeSearch
  import opened TreeInsert

  /** `b` comes after `a`, and the two have no label in common. */
  ghost predicate Follows(a: seq<Label>, b: seq<Label>) {
    a != [] && b != [] && NameLess(a, b) && !Meets(b, a)
  }

  lemma FollowsTrans(a: seq<Label>, b: seq<Label>, c: seq<Label>)
    requires Follows(a, b) && Follows(b, c)
    ensures Follows(a, c)
  {
    hide NameLess, LabelLess, SameFold;
    MeetsEither(b, a);
    MeetsEither(c, b);
    LastLess(a, b);
    LastLess(b, c);
    LabelLessTrans(FromRight(a, 0), FromRight(b, 0), FromRight(c, 0));
    BesideKey(FromRight(c, 0), FromRight(a, 0));
    NameLessTrans(a, b, c);
  }

  /** What a comparison says of a name and of one that it follows. */
  lemma FollowsSays(r: Comparison, q: seq<Label>, x: seq<Label>)
    requires Said(r, q, x) && Follows(x, q)
    ensures r.relation != Equal && r.relation != SubDomain && r.commonLabelCount == 1 && r.order >= 0
  {
    hide NameLess, SameFold, CommonCount;
    if NameLess(q, x) {
      NotBoth(q, x);
    }
  }

  /** What a comparison says of a name and the root name. */
  lemma RootSays(r: Comparison, q: seq<Label>)
    requires Said(r, q, []) && q != []
    ensures r.relation == SubDomain
  {
    hide NameLess, SameFold, CommonCount;
    assert Agree(q, [], 0);
  }

  /** One turn of the loop of `Insert`, at the node of the root name or at one that the name follows. */
  method Turn(name: Name, current: Node, firstCompare: bool) returns (name': Name, next: Node?)
    requires Valid(name) && Valid(current.name) && Labels(name) != []
    requires Labels(current.name) == [] || (!firstCompare && Follows(Labels(current.name), Labels(name)))
    ensures name' == name && next == if Labels(current.name) == [] then current.down else current.right
  {
    hide *;
    ghost var q, x := Labels(name), Labels(current.name);
    var comparison := Compare(name, current.name);
    CompareSays(comparison, q, x);
    if x == [] {
      RootSays(comparison, q);
    } else {
      FollowsSays(comparison, q, x);
    }
    if comparison.relation == SubDomain {
      var rest := Subtract(name, current.name);
      assert q[..|q|] == q;
      return rest.name, current.down;
    }
    assert comparison.relation != Equal && comparison.commonLabelCount <= 1 && !firstCompare && comparison.order >= 0;
    name', next := name, current.right;
  }

  /** The node of the root name over `x`, as `insertRoot` makes it. */
  ghost predicate OverTop(h: Heap, r: Node, x: Node) {
    h.root == r && r != x && Holds(h.cells, r, Cell(null, null, null, x, Black, RootName(), NoData))
  }

  /** A node with at most a right child. */
  ghost predicate Bare(h: Heap, n: Node, parent: Node, right: Node?, color: Color, name: Name) {
    n in h.cells &&
    var c := h.cells[n];
    c.parent == parent && c.left == null && c.right == right && c.down == null && c.color == color && c.name == name
  }

  /** The place to the right of `p`, in the level below `r`. */
  ghost function Beside(r: Node, p: Node): (k: Way)
    ensures Above(k) == p && Upper(k) == r && k.InR? && k.e.nd == p
  {
    var up := InD(Info(r, RootName(), NoData), Black, Leaf, Leaf, Top);
    assert Base(up) == up;
    InR(Info(p, RootName(), NoData), Black, Leaf, Leaf, up)
  }

  lemma PlantedBeside(h: Heap, h': Heap, r: Node, x: Node, p: Node, n: Node, name: Name)
    requires Planted(h, h', Beside(r, p), n, name) && OverTop(h, r, x) && p != r
    ensures OverTop(h', r, x) && p in h.cells && n !in h.cells && Bare(h', n, p, null, Red, name)
    ensures Holds(h'.cells, p, h.cells[p].(right := n)) && SameOn(h.cells, h'.cells, h.cells.Keys - {p})
  {
  }

  /** A name that follows the old top `x`: it goes to the right of `x`, and nothing is rotated. */
  method First(tree: DomainTree, name: Name, r: Node, x: Node) returns (y: Node)
    requires {r, x} <= tree.nodes && OverTop(tree.Now(), r, x) && Bare(tree.Now(), x, r, null, Black, x.name)
    requires Valid(x.name) && Valid(name) && Follows(Labels(x.name), Labels(name))
    modifies tree, tree.nodes
    ensures fresh(y) && tree.nodes == old(tree.nodes) + {y} && x.name == old(x.name) && y.name == name
    ensures OverTop(tree.Now(), r, x) && Bare(tree.Now(), x, r, y, Black, x.name)
    ensures Bare(tree.Now(), y, x, null, Red, name)
  {
    hide Valid, Meets, Planted, NameLess;
    var name', current := Turn(name, tree.root, true);
    name', current := Turn(name', current, false);
    assert current == null;
    ghost var h := tree.Now();
    y := Plant(tree, name', x, r, 1, Beside(r, x));
    PlantedBeside(h, tree.Now(), r, x, x, y, name);
    assert y != r.down && y.parent.color == Black;
    r.down.color := Black;
    tree.nodeCount := tree.nodeCount + 1;
  }

  /** The links in which the level of `x` has turned and `r` has not been told. */
  ghost predicate Turned(h: Heap, r: Node, x: Node, y: Node, z: Node) {
    && h.root == r && {r, x, y, z} <= h.cells.Keys && h.cells[r].down == x && h.cells[r].name == RootName()
    && (var c := h.cells[x]; c.parent == y && c.left == null && c.right == null && c.down == null)
    && h.cells[y].parent == r && h.cells[y].left == x && h.cells[y].right == z && h.cells[z].parent == y
  }

  lemma RotatedAside(h: Heap, h': Heap, r: Node, x: Node, y: Node, z: Node, nameX: Name)
    requires RotatedLeft(h, h', x, y, r) && OverTop(h, r, x) && Bare(h, x, r, y, Red, nameX)
    requires {y, z} <= h.cells.Keys && |{r, x, y, z}| == 4
    requires h.cells[y].left == null && h.cells[y].right == z && h.cells[z].parent == y
    ensures Turned(h', r, x, y, z)
  {
  }

  /** The nodes that a descent of `n` steps can meet from a node on. */
  ghost function Visits(h: Heap, nd: Node?, n: nat): set<Node> {
    if nd == null || nd !in h.cells || n == 0 then {}
    else
      var c := h.cells[nd];
      {nd} + Visits(h, c.left, n - 1) + Visits(h, c.right, n - 1) + Visits(h, c.down, n - 1)
  }

  /** Whatever is asked for, a search that goes on from the root node meets `x` only. */
  lemma OutOfReach(h: Heap, r: Node, x: Node, y: Node, z: Node, n: nat)
    requires Turned(h, r, x, y, z)
    ensures Visits(h, h.cells[r].down, n) <= {x}
  {
  }

  /**
    * `insertRebalance` at a red node `node` to the right of the red node `y`, which is to the
    * right of the top `x` of its level: one turn, in its last branch.
    */
  method Rebalance(tree: DomainTree, up: Node, node: Node, ghost x: Node, ghost y: Node)
    requires {up, x, y, node} <= tree.nodes && |{up, x, y, node}| == 4 && OverTop(tree.Now(), up, x)
    requires Bare(tree.Now(), x, up, y, Black, x.name) && Bare(tree.Now(), y, x, node, Red, y.name) && node.parent == y
    modifies tree`root, tree.nodes`parent, tree.nodes`left, tree.nodes`right, tree.nodes`down, tree.nodes`color
    ensures Turned(tree.Now(), up, x, y, node)
  {
    hide RotatedLeft;
    assert node != up.down && node.parent.color == Red;
    assert node.parent != node.parent.parent.left && node.parent.parent.left == null && node != node.parent.left;
    node.parent.color := Black;
    node.parent.parent.color := Red;
    ghost var h := tree.Now();
    LeftRotate(tree, up, node.parent.parent);
    RotatedAside(h, tree.Now(), up, x, y, node, x.name);
    assert node.parent.color == Black;
    up.down.color := Black;
  }

  lemma CellIs(tree: DomainTree, n: Node)
    ensures n in tree.nodes <==> n in tree.Now().cells
    ensures n in tree.nodes ==> tree.Now().cells[n].name == n.name && tree.Now().cells[n].parent == n.parent
    ensures n in tree.nodes ==> tree.Now().cells[n].down == n.down
    ensures tree.Now().root == tree.root
  {
  }

  lemma OverTopIs(tree: DomainTree, r: Node, x: Node)
    requires OverTop(tree.Now(), r, x)
    ensures r in tree.nodes && tree.root == r && r.down == x && r.name == RootName()
  {
  }

  lemma BareIs(tree: DomainTree, n: Node, parent: Node, right: Node?, color: Color, name: Name)
    requires Bare(tree.Now(), n, parent, right, color, name)
    ensures n in tree.nodes && n.parent == parent && n.left == null && n.right == right && n.color == color
    ensures n.name == name
  {
  }

  lemma PlantedThird(h: Heap, h': Heap, r: Node, x: Node, y: Node, z: Node, name: Name)
    requires Planted(h, h', Beside(r, y), z, name) && OverTop(h, r, x) && {x, y} <= h.cells.Keys && y !in {r, x}
    requires Bare(h, x, r, y, Black, h.cells[x].name) && Bare(h, y, x, null, Red, h.cells[y].name)
    ensures {r, x, y, z} <= h'.cells.Keys && |{r, x, y, z}| == 4
    ensures Bare(h', x, r, y, Black, h'.cells[x].name) && Bare(h', y, x, z, Red, h'.cells[y].name)
    ensures h'.cells[y].name == h.cells[y].name && h'.cells[z].parent == y && h'.cells[z].name == name
  {
  }

  /**
    * One more name, which follows the second: it goes to the right of `y`, which is red, so
    * `insertRebalance` rotates at `x`. The parent of `x` is the root node, outside of the level.
    */
  method Second(tree: DomainTree, name: Name, r: Node, x: Node, y: Node) returns (z: Node)
    requires {r, x, y} <= tree.nodes && OverTop(tree.Now(), r, x) && y !in {r, x}
    requires Bare(tree.Now(), x, r, y, Black, x.name) && Bare(tree.Now(), y, x, null, Red, y.name)
    requires Valid(x.name) && Valid(y.name) && Valid(name)
    requires Follows(Labels(x.name), Labels(y.name)) && Follows(Labels(y.name), Labels(name))
    modifies tree, tree.nodes
    ensures fresh(z) && tree.nodes == old(tree.nodes) + {z} && z.name == name && y.name == old(y.name)
    ensures Turned(tree.Now(), r, x, y, z)
  {
    hide *;
    FollowsTrans(Labels(x.name), Labels(y.name), Labels(name));
    FollowsSome(Labels(y.name), Labels(name));
    FollowsSome(Labels(x.name), Labels(y.name));
    OverTopIs(tree, r, x);
    BareIs(tree, x, r, y, Black, x.name);
    BareIs(tree, y, x, null, Red, y.name);
    var name', current := Turn(name, tree.root, true);
    name', current := Turn(name', current, false);
    name', current := Turn(name', current, false);
    assert current == null;
    ghost var h := tree.Now();
    CellIs(tree, x);
    CellIs(tree, y);
    z := Plant(tree, name', y, r, 1, Beside(r, y));
    ghost var h' := tree.Now();
    PlantedBeside(h, h', r, x, y, z, name);
    PlantedThird(h, h', r, x, y, z, name);
    CellIs(tree, x);
    CellIs(tree, y);
    CellIs(tree, z);
    Rebalance(tree, r, z, x, y);
    tree.nodeCount := tree.nodeCount + 1;
  }

  /** A node that has nothing but a name and data. */
  ghost predicate Single(h: Heap, x: Node, name: Name) {
    x in h.cells &&
    var c := h.cells[x];
    c.left == null && c.right == null && c.down == null && c.name == name
  }

  lemma OneNode(tree: DomainTree)
    requires TreeOk(tree) && tree.shape.N? && tree.shape.d.Leaf?
    ensures tree.root != null && tree.root in tree.nodes && Single(tree.Now(), tree.root, tree.root.name)
    ensures Valid(tree.root.name) && NameOf(tree.shape.e) == Labels(tree.root.name)
    ensures TakesRoot(tree.shape) <==> NameOf(tree.shape.e) == []
  {
    hide Level, Flat;
    RootTop(tree);
    ConfCell(tree.Now(), Top, tree.shape);
  }

  lemma OverAlone(h: Heap, h': Heap, r: Node, x: Node, name: Name)
    requires RootAdded(h, h', r, x, NoData) && Single(h, x, name)
    ensures OverTop(h', r, x) && Bare(h', x, r, null, Black, name) && x in h'.cells && h'.cells[x].name == name
  {
  }

  lemma FollowsSome(a: seq<Label>, b: seq<Label>)
    requires Follows(a, b)
    ensures a != [] && b != []
  {
  }

  lemma TurnedIs(h: Heap, r: Node, x: Node, y: Node, z: Node)
    requires Turned(h, r, x, y, z)
    ensures h.root == r && {r, x, y, z} <= h.cells.Keys && h.cells[r].down == x && h.cells[r].name == RootName()
  {
  }

  /**
    * A tree of one name gets the root name above it and then two names that follow it. After
    * that both are out of reach of every search, which goes on from the root node.
    */
  method RootRunLoses(tree: DomainTree, nameY: Name, nameZ: Name) returns (r: Node, x: Node, y: Node, z: Node)
    requires TreeOk(tree) && tree.shape.N? && tree.shape.d.Leaf?
    requires Valid(nameY) && Valid(nameZ)
    requires Follows(NameOf(tree.shape.e), Labels(nameY)) && Follows(Labels(nameY), Labels(nameZ))
    modifies tree, tree.nodes
    ensures x == old(tree.root) && {r, x, y, z} <= tree.nodes && y.name == nameY && z.name == nameZ
    ensures tree.root == r && r.name == RootName() && r.down == x
    ensures forall n :: Visits(tree.Now(), r.down, n) <= {x}
  {
    hide *;
    OneNode(tree);
    x := tree.root;
    ghost var h := tree.Now();
    ghost var k, t;
    FollowsSome(NameOf(tree.shape.e), Labels(nameY));
    ghost var nameX := x.name;
    r, k, t := InsertRoot(tree);
    OverAlone(h, tree.Now(), r, x, nameX);
    CellIs(tree, x);
    CellIs(tree, r);
    y := First(tree, nameY, r, x);
    z := Second(tree, nameZ, r, x, y);
    TurnedIs(tree.Now(), r, x, y, z);
    CellIs(tree, r);
    forall n: nat ensures Visits(tree.Now(), r.down, n) <= {x} {
      OutOfReach(tree.Now(), r, x, y, z, n);
    }
  }
}
