/** `removeRebalance` of `g53/domaintree/domaintree.go`: one black node too few is repaired. */
module RemoveBalance {
  import opened Names
  import opened Trees
  import opened Rotations
  import opened RedBlack
  import opened InsertBalance

  /** A level that is balanced except that every way through the hole is one black node short. */
  ghost predicate Short(k: Way, t: Tree, n: nat) {
    Even(t, n) && WayEven(k, n + 1) && Calm(t) && WayCalm(k) && TopBlack(k) && Col(t) == Black
  }

  ghost predicate Mended(k: Way, t: Tree, n: nat) {
    && Even(t, n) && WayEven(k, n) && Calm(t) && WayCalm(k) && TopBlack(k)
    && (WayCol(k) == Red || Above(k) == null ==> Col(t) == Black)
  }

  lemma MendedBalanced(h: Heap, k: Way, t: Tree, n: nat)
    requires Conf(h, k, t) && Mended(k, t, n)
    ensures Conf(h, Base(k), Closed(k, t)) && Entries(Closed(k, t)) == Whole(k, t) && Balanced(Closed(k, t))
  {
    hide Conf, Even, Calm, WayEven, WayCalm, TopBlack;
    ClosedConf(h, k, t);
    ClosedEntries(k, t);
    var m := ClosedBalanced(k, t, n);
  }

  /** The null pointer counts as a black node. */
  function ColorOf(node: Node?): Color
    reads node
  {
    if node == null then Black else node.color
  }


  /** A red sibling on the right: a rotation makes a black one the sibling. */
  ghost function LoweredLeft(k: Way): (k': Way)
    requires k.InL? && k.r.N?
    ensures k'.InL? && k'.e == k.e && k'.c == Red && k'.r == k.r.l
  {
    InL(k.e, Red, k.r.l, k.d, InL(k.r.e, Black, k.r.r, k.r.d, k.up))
  }

  lemma LowerLeftKeeps(k: Way, t: Tree, n: nat)
    requires Short(k, t, n) && k.InL? && Col(k.r) == Red
    ensures Short(LoweredLeft(k), t, n) && Col(k.r.l) == Black && Base(LoweredLeft(k)) == Base(k)
  {
    assert Even(k.r, n + 1) && k.c == Black;
    assert WayEven(k.up, n + 2) && TopBlack(LoweredLeft(k).up);
  }

  lemma LowerLeftEntries(k: Way, t: Tree)
    requires k.InL? && k.r.N?
    ensures Whole(LoweredLeft(k), t) == Whole(k, t)
  {
    hide Before, After;
    var k' := LoweredLeft(k);
    WholeUp(k, t);
    WholeUp(k', t);
    WholeUp(k'.up, Fill(k', t));
    LeftEntries(Fill(k, t));
    assert Entries(LeftRotation(Fill(k, t))) == Entries(Fill(k'.up, Fill(k', t)));
  }

  /** A black sibling on the right with black children: it turns red, and its parent ends up black. */
  ghost function PaledLeft(k: Way, t: Tree): (p: Tree)
    requires k.InL?
    ensures p.N? && p.e == k.e
  {
    N(k.e, Black, t, Dyed(k.r, Red), k.d)
  }

  lemma PaleLeftKeeps(k: Way, t: Tree, n: nat)
    requires Short(k, t, n) && k.InL? && k.r.N? && k.r.c == Black && Col(k.r.l) == Black && Col(k.r.r) == Black
    ensures k.c == Black ==> Short(k.up, PaledLeft(k, t), n + 1)
    ensures k.c == Red ==> Mended(k.up, PaledLeft(k, t), n + 1)
    ensures Base(k.up) == Base(k) && Whole(k.up, PaledLeft(k, t)) == Whole(k, t)
  {
    var p := PaledLeft(k, t);
    assert Even(k.r, n + 1);
    assert Even(p.r, n);
    assert k.c == Black ==> WayEven(k.up, n + 2);
    WholeUp(k, t);
    ColorEntries(k.r, Red);
  }

  /** A black sibling on the right whose far child is black: a rotation makes the near red child the sibling. */
  ghost function TwistedLeft(k: Way): (k': Way)
    requires k.InL? && k.r.N? && k.r.l.N?
    ensures k'.InL? && k'.up == k.up && k'.e == k.e && k'.c == k.c && k'.r.N? && k'.r.r.N?
  {
    InL(k.e, k.c, N(k.r.l.e, Black, k.r.l.l, N(k.r.e, Red, k.r.l.r, k.r.r, k.r.d), k.r.l.d), k.d, k.up)
  }

  lemma TwistLeftKeeps(k: Way, t: Tree, n: nat)
    requires Short(k, t, n) && k.InL? && k.r.N? && k.r.c == Black && Col(k.r.l) == Red && Col(k.r.r) == Black
    ensures var k' := TwistedLeft(k); Short(k', t, n) && k'.r.c == Black && Col(k'.r.r) == Red && Base(k') == Base(k)
  {
    assert Even(k.r, n + 1);
    assert Even(k.r.l, n) && Calm(k.r) && Calm(k.r.l);
    var s := TwistedLeft(k).r;
    assert Even(s.r, n) && Calm(s.r);
    assert Even(s, n + 1) && Calm(s);
  }

  lemma TwistLeftEntries(k: Way, t: Tree)
    requires k.InL? && k.r.N? && k.r.l.N?
    ensures Whole(TwistedLeft(k), t) == Whole(k, t)
  {
    hide Before, After;
    RightEntries(k.r);
    WholeUp(k, t);
    WholeUp(TwistedLeft(k), t);
    assert Entries(TwistedLeft(k).r) == Entries(RightRotation(k.r));
  }

  /** A black sibling on the right whose far child is red: a rotation fills the gap. */
  ghost function ClosedGapLeft(k: Way, t: Tree): Tree
    requires k.InL? && k.r.N?
  {
    N(k.r.e, k.c, N(k.e, Black, t, k.r.l, k.d), Dyed(k.r.r, Black), k.r.d)
  }

  lemma CloseGapLeftKeeps(k: Way, t: Tree, n: nat)
    requires Short(k, t, n) && k.InL? && k.r.N? && k.r.c == Black && Col(k.r.r) == Red
    ensures Mended(k.up, ClosedGapLeft(k, t), n + 1 + Weight(k.c)) && Base(k.up) == Base(k)
  {
    var g := ClosedGapLeft(k, t);
    assert Even(k.r, n + 1) && Calm(k.r);
    assert Even(k.r.l, n) && Even(k.r.r, n);
    assert Even(g.l, n + 1) && Calm(g.l);
    assert Calm(k.r.r);
    assert Even(g.r, n + 1) && Calm(g.r);
  }

  lemma CloseGapLeftEntries(k: Way, t: Tree)
    requires k.InL? && k.r.N?
    ensures Whole(k.up, ClosedGapLeft(k, t)) == Whole(k, t)
  {
    hide Before, After;
    WholeUp(k, t);
    LeftEntries(Fill(k, t));
    ColorEntries(k.r.r, Black);
    assert Entries(ClosedGapLeft(k, t)) == Entries(LeftRotation(Fill(k, t)));
  }

  /** The family of a hole that is a left child. */
  ghost predicate NearLeft(h: Heap, k: Way, t: Tree) {
    && k.InL? && k.e.nd in h.cells && h.cells[k.e.nd].parent == Above(k.up)
    && h.cells[k.e.nd].left == Ref(t) && h.cells[k.e.nd].right == Ref(k.r) && h.cells[k.e.nd].color == k.c
    && (k.r.N? ==> (
        && k.r.e.nd in h.cells && h.cells[k.r.e.nd].color == k.r.c
        && h.cells[k.r.e.nd].left == Ref(k.r.l) && h.cells[k.r.e.nd].right == Ref(k.r.r)
        && (k.r.l.N? ==> k.r.l.e.nd in h.cells && h.cells[k.r.l.e.nd].color == k.r.l.c)
        && (k.r.r.N? ==> k.r.r.e.nd in h.cells && h.cells[k.r.r.e.nd].color == k.r.r.c)))
  }

  lemma LookLeft(h: Heap, k: Way, t: Tree)
    requires Conf(h, k, t) && k.InL?
    ensures NearLeft(h, k, t) && Upper(k.up) == Upper(k)
    ensures Conf(h, k.up, Fill(k, t))
  {
    hide Conf;
    ConfUp(h, k, t);
    var p := Fill(k, t);
    ConfCell(h, k.up, p);
    ConfRight(h, k.up, p);
    if k.r.N? {
      var ks := InR(p.e, p.c, p.l, p.d, k.up);
      ConfCell(h, ks, k.r);
      ConfLeft(h, ks, k.r);
      ConfRight(h, ks, k.r);
      if k.r.l.N? {
        ConfCell(h, InL(k.r.e, k.r.c, k.r.r, k.r.d, ks), k.r.l);
      }
      if k.r.r.N? {
        ConfCell(h, InR(k.r.e, k.r.c, k.r.l, k.r.d, ks), k.r.r);
      }
    }
  }

  method LowerLeft(tree: DomainTree, up: Node?, parent: Node, sibling: Node, ghost k: Way, ghost t: Tree)
    requires Conf(tree.Now(), k, t) && k.InL? && k.r.N? && up == Upper(k.up)
    requires parent == k.e.nd && sibling == k.r.e.nd && {parent, sibling} <= tree.nodes
    modifies tree`root, tree.nodes`parent, tree.nodes`left, tree.nodes`right, tree.nodes`down, tree.nodes`color
    ensures Conf(tree.Now(), LoweredLeft(k), t)
  {
    hide Conf;
    ConfUp(tree.Now(), k, t);
    Paint(tree, parent, Red, k.up, Fill(k, t));
    ghost var p := Dyed(Fill(k, t), Red);
    ConfRight(tree.Now(), k.up, p);
    ghost var ks := InR(p.e, p.c, p.l, p.d, k.up);
    Paint(tree, sibling, Black, ks, p.r);
    ConfUp(tree.Now(), ks, Dyed(p.r, Black));
    p := Fill(ks, Dyed(p.r, Black));
    TurnLeft(tree, up, parent, k.up, p);
    ghost var s := LeftRotation(p);
    ConfLeft(tree.Now(), k.up, s);
    ConfLeft(tree.Now(), InL(s.e, s.c, s.r, s.d, k.up), s.l);
  }

  method PaleLeft(tree: DomainTree, parent: Node, sibling: Node, ghost k: Way, ghost t: Tree)
    requires Conf(tree.Now(), k, t) && k.InL? && k.r.N?
    requires parent == k.e.nd && sibling == k.r.e.nd && {parent, sibling} <= tree.nodes
    modifies tree.nodes`color
    ensures Conf(tree.Now(), k.up, PaledLeft(k, t))
  {
    hide Conf;
    LookLeft(tree.Now(), k, t);
    ghost var p := Fill(k, t);
    ConfRight(tree.Now(), k.up, p);
    ghost var ks := InR(p.e, p.c, p.l, p.d, k.up);
    Paint(tree, sibling, Red, ks, p.r);
    ConfUp(tree.Now(), ks, Dyed(p.r, Red));
    p := Fill(ks, Dyed(p.r, Red));
    ConfCell(tree.Now(), k.up, p);
    if parent.color == Red {
      Paint(tree, parent, Black, k.up, p);
    }
  }

  method TwistLeft(tree: DomainTree, up: Node?, sibling: Node, near: Node, ghost k: Way, ghost t: Tree)
    requires Conf(tree.Now(), k, t) && k.InL? && k.r.N? && k.r.l.N? && up == Upper(k.up)
    requires sibling == k.r.e.nd && near == k.r.l.e.nd && {sibling, near} <= tree.nodes
    modifies tree`root, tree.nodes`parent, tree.nodes`left, tree.nodes`right, tree.nodes`down, tree.nodes`color
    ensures Conf(tree.Now(), TwistedLeft(k), t)
  {
    hide Conf;
    ConfUp(tree.Now(), k, t);
    ghost var p := Fill(k, t);
    ConfRight(tree.Now(), k.up, p);
    ghost var ks := InR(p.e, p.c, p.l, p.d, k.up);
    Paint(tree, sibling, Red, ks, k.r);
    ghost var s := Dyed(k.r, Red);
    ConfLeft(tree.Now(), ks, s);
    ghost var kn := InL(s.e, s.c, s.r, s.d, ks);
    Paint(tree, near, Black, kn, s.l);
    ConfUp(tree.Now(), kn, Dyed(s.l, Black));
    s := Fill(kn, Dyed(s.l, Black));
    assert Base(ks) == Base(k.up);
    TurnRight(tree, up, sibling, ks, s);
    s := RightRotation(s);
    ConfUp(tree.Now(), ks, s);
    ConfLeft(tree.Now(), k.up, Fill(ks, s));
  }

  method CloseGapLeft(tree: DomainTree, up: Node?, parent: Node, sibling: Node, far: Node, ghost k: Way, ghost t: Tree)
    requires Conf(tree.Now(), k, t) && k.InL? && k.r.N? && k.r.r.N? && up == Upper(k.up)
    requires parent == k.e.nd && sibling == k.r.e.nd && far == k.r.r.e.nd && {parent, sibling, far} <= tree.nodes
    modifies tree`root, tree.nodes`parent, tree.nodes`left, tree.nodes`right, tree.nodes`down, tree.nodes`color
    ensures Conf(tree.Now(), k.up, ClosedGapLeft(k, t))
  {
    hide Conf;
    LookLeft(tree.Now(), k, t);
    ghost var p := Fill(k, t);
    ConfRight(tree.Now(), k.up, p);
    ghost var ks := InR(p.e, p.c, p.l, p.d, k.up);
    Paint(tree, sibling, parent.color, ks, k.r);
    ghost var s := Dyed(k.r, k.c);
    ConfRight(tree.Now(), ks, s);
    ghost var kf := InR(s.e, s.c, s.l, s.d, ks);
    Paint(tree, far, Black, kf, s.r);
    ConfUp(tree.Now(), kf, Dyed(s.r, Black));
    s := Fill(kf, Dyed(s.r, Black));
    ConfUp(tree.Now(), ks, s);
    p := Fill(ks, s);
    Paint(tree, parent, Black, k.up, p);
    TurnLeft(tree, up, parent, k.up, Dyed(p, Black));
  }

  lemma SiblingLeft(k: Way, t: Tree, n: nat)
    requires Short(k, t, n) && k.InL?
    ensures k.r.N?
  {
    assert Even(k.r, n + 1);
  }

  /** A black sibling with a red child: the level is mended. */
  method FillGapLeft(tree: DomainTree, up: Node?, parent: Node, sibling: Node, ghost k: Way, ghost t: Tree,
                     ghost n: nat)
    returns (ghost t': Tree)
    requires Conf(tree.Now(), k, t) && Short(k, t, n) && k.InL? && k.r.N? && up == Upper(k)
    requires parent == k.e.nd && sibling == k.r.e.nd && NearLeft(tree.Now(), k, t)
    requires k.r.c == Black && (Col(k.r.l) == Red || Col(k.r.r) == Red)
    modifies tree`root, tree.nodes`parent, tree.nodes`left, tree.nodes`right, tree.nodes`down, tree.nodes`color
    ensures Conf(tree.Now(), k.up, t') && Whole(k.up, t') == Whole(k, t) && Base(k.up) == Base(k)
    ensures Mended(k.up, t', n + 1 + Weight(k.c))
  {
    hide Conf, Short, Mended, Whole, Base, TwistedLeft, ClosedGapLeft;
    ghost var k' := k;
    var sibling := sibling;
    LookLeft(tree.Now(), k, t);
    if ColorOf(sibling.right) == Black {
      TwistLeftKeeps(k, t, n);
      TwistLeftEntries(k, t);
      TwistLeft(tree, up, sibling, sibling.left, k, t);
      k' := TwistedLeft(k);
      LookLeft(tree.Now(), k', t);
      sibling := parent.right;
    }
    CloseGapLeftKeeps(k', t, n);
    CloseGapLeftEntries(k', t);
    CloseGapLeft(tree, up, parent, sibling, sibling.right, k', t);
    t' := ClosedGapLeft(k', t);
  }

  /** The rest of a round, the sibling being black. */
  method MendBlackLeft(tree: DomainTree, up: Node?, parent: Node, sibling: Node, ghost k: Way, ghost t: Tree,
                       ghost n: nat)
    returns (done: bool, ghost k': Way, ghost t': Tree, ghost n': nat)
    requires Conf(tree.Now(), k, t) && Short(k, t, n) && k.InL? && up == Upper(k)
    requires k.r.N? && k.r.c == Black && parent == k.e.nd && sibling == k.r.e.nd
    modifies tree`root, tree.nodes`parent, tree.nodes`left, tree.nodes`right, tree.nodes`down, tree.nodes`color
    ensures Conf(tree.Now(), k', t') && Whole(k', t') == Whole(k, t) && Base(k') == Base(k) && k' == k.up
    ensures if done then Mended(k', t', n') else Short(k', t', n') && t'.N? && t'.e == k.e && k.c == Black
  {
    hide Conf, Short, Mended, Whole, Base, PaledLeft;
    LookLeft(tree.Now(), k, t);
    done, k', n' := true, k.up, n + 1;
    if ColorOf(sibling.left) == Black && ColorOf(sibling.right) == Black {
      PaleLeftKeeps(k, t, n);
      done := parent.color == Red;
      PaleLeft(tree, parent, sibling, k, t);
      t' := PaledLeft(k, t);
    } else {
      t' := FillGapLeft(tree, up, parent, sibling, k, t, n);
      n' := n + 1 + Weight(k.c);
    }
  }

  /** One round of the loop when the gap is on the left; neither panic of `removeRebalance` can happen. */
  method MendLeft(tree: DomainTree, up: Node?, child: Node?, parent: Node, ghost k: Way, ghost t: Tree, ghost n: nat)
    returns (done: bool, child': Node?, parent': Node?, ghost k': Way, ghost t': Tree, ghost n': nat)
    requires Conf(tree.Now(), k, t) && Short(k, t, n) && k.InL? && up == Upper(k)
    requires child == Ref(t) && parent == k.e.nd
    modifies tree`root, tree.nodes`parent, tree.nodes`left, tree.nodes`right, tree.nodes`down, tree.nodes`color
    ensures Conf(tree.Now(), k', t') && Whole(k', t') == Whole(k, t) && Base(k') == Base(k)
    ensures if done then Mended(k', t', n') else Short(k', t', n') && child' == Ref(t') && parent' == Above(k')
    ensures !done ==> Depth(k') < Depth(k)
  {
    hide Conf, Short, Mended, Whole, Base, LoweredLeft;
    child', parent', k', t', n' := child, parent, k, t, n;
    LookLeft(tree.Now(), k, t);
    SiblingLeft(k, t, n);
    var sibling := parent.right;
    if sibling.color == Red {
      LowerLeftKeeps(k, t, n);
      LowerLeftEntries(k, t);
      LowerLeft(tree, up, parent, sibling, k, t);
      k' := LoweredLeft(k);
      LookLeft(tree.Now(), k', t);
      SiblingLeft(k', t, n);
      sibling := parent.right;
    }
    done, k', t', n' := MendBlackLeft(tree, up, parent, sibling, k', t, n);
    if !done {
      ConfCell(tree.Now(), k', t');
      child', parent' := parent, parent.parent;
    }
  }


  /** A red sibling on the left: a rotation makes a black one the sibling. */
  ghost function LoweredRight(k: Way): (k': Way)
    requires k.InR? && k.l.N?
    ensures k'.InR? && k'.e == k.e && k'.c == Red && k'.l == k.l.r
  {
    InR(k.e, Red, k.l.r, k.d, InR(k.l.e, Black, k.l.l, k.l.d, k.up))
  }

  lemma LowerRightKeeps(k: Way, t: Tree, n: nat)
    requires Short(k, t, n) && k.InR? && Col(k.l) == Red
    ensures Short(LoweredRight(k), t, n) && Col(k.l.r) == Black && Base(LoweredRight(k)) == Base(k)
  {
    assert Even(k.l, n + 1) && k.c == Black;
    assert WayEven(k.up, n + 2) && TopBlack(LoweredRight(k).up);
  }

  lemma LowerRightEntries(k: Way, t: Tree)
    requires k.InR? && k.l.N?
    ensures Whole(LoweredRight(k), t) == Whole(k, t)
  {
    hide Before, After;
    var k' := LoweredRight(k);
    WholeUp(k, t);
    WholeUp(k', t);
    WholeUp(k'.up, Fill(k', t));
    RightEntries(Fill(k, t));
    assert Entries(RightRotation(Fill(k, t))) == Entries(Fill(k'.up, Fill(k', t)));
  }

  /** A black sibling on the left with black children: it turns red, and its parent ends up black. */
  ghost function PaledRight(k: Way, t: Tree): (p: Tree)
    requires k.InR?
    ensures p.N? && p.e == k.e
  {
    N(k.e, Black, Dyed(k.l, Red), t, k.d)
  }

  lemma PaleRightKeeps(k: Way, t: Tree, n: nat)
    requires Short(k, t, n) && k.InR? && k.l.N? && k.l.c == Black && Col(k.l.r) == Black && Col(k.l.l) == Black
    ensures k.c == Black ==> Short(k.up, PaledRight(k, t), n + 1)
    ensures k.c == Red ==> Mended(k.up, PaledRight(k, t), n + 1)
    ensures Base(k.up) == Base(k) && Whole(k.up, PaledRight(k, t)) == Whole(k, t)
  {
    var p := PaledRight(k, t);
    assert Even(k.l, n + 1);
    assert Even(p.l, n);
    assert k.c == Black ==> WayEven(k.up, n + 2);
    WholeUp(k, t);
    ColorEntries(k.l, Red);
  }

  /** A black sibling on the left whose far child is black: a rotation makes the near red child the sibling. */
  ghost function TwistedRight(k: Way): (k': Way)
    requires k.InR? && k.l.N? && k.l.r.N?
    ensures k'.InR? && k'.up == k.up && k'.e == k.e && k'.c == k.c && k'.l.N? && k'.l.l.N?
  {
    InR(k.e, k.c, N(k.l.r.e, Black, N(k.l.e, Red, k.l.l, k.l.r.l, k.l.d), k.l.r.r, k.l.r.d), k.d, k.up)
  }

  lemma TwistRightKeeps(k: Way, t: Tree, n: nat)
    requires Short(k, t, n) && k.InR? && k.l.N? && k.l.c == Black && Col(k.l.r) == Red && Col(k.l.l) == Black
    ensures var k' := TwistedRight(k); Short(k', t, n) && k'.l.c == Black && Col(k'.l.l) == Red && Base(k') == Base(k)
  {
    assert Even(k.l, n + 1);
    assert Even(k.l.r, n) && Calm(k.l) && Calm(k.l.r);
    var s := TwistedRight(k).l;
    assert Even(s.l, n) && Calm(s.l);
    assert Even(s, n + 1) && Calm(s);
  }

  lemma TwistRightEntries(k: Way, t: Tree)
    requires k.InR? && k.l.N? && k.l.r.N?
    ensures Whole(TwistedRight(k), t) == Whole(k, t)
  {
    hide Before, After;
    LeftEntries(k.l);
    WholeUp(k, t);
    WholeUp(TwistedRight(k), t);
    assert Entries(TwistedRight(k).l) == Entries(LeftRotation(k.l));
  }

  /** A black sibling on the left whose far child is red: a rotation fills the gap. */
  ghost function ClosedGapRight(k: Way, t: Tree): Tree
    requires k.InR? && k.l.N?
  {
    N(k.l.e, k.c, Dyed(k.l.l, Black), N(k.e, Black, k.l.r, t, k.d), k.l.d)
  }

  lemma CloseGapRightKeeps(k: Way, t: Tree, n: nat)
    requires Short(k, t, n) && k.InR? && k.l.N? && k.l.c == Black && Col(k.l.l) == Red
    ensures Mended(k.up, ClosedGapRight(k, t), n + 1 + Weight(k.c)) && Base(k.up) == Base(k)
  {
    var g := ClosedGapRight(k, t);
    assert Even(k.l, n + 1) && Calm(k.l);
    assert Even(k.l.r, n) && Even(k.l.l, n);
    assert Even(g.r, n + 1) && Calm(g.r);
    assert Calm(k.l.l);
    assert Even(g.l, n + 1) && Calm(g.l);
  }

  lemma CloseGapRightEntries(k: Way, t: Tree)
    requires k.InR? && k.l.N?
    ensures Whole(k.up, ClosedGapRight(k, t)) == Whole(k, t)
  {
    hide Before, After;
    WholeUp(k, t);
    RightEntries(Fill(k, t));
    ColorEntries(k.l.l, Black);
    assert Entries(ClosedGapRight(k, t)) == Entries(RightRotation(Fill(k, t)));
  }

  /** The family of a hole that is a right child. */
  ghost predicate NearRight(h: Heap, k: Way, t: Tree) {
    && k.InR? && k.e.nd in h.cells && h.cells[k.e.nd].parent == Above(k.up)
    && h.cells[k.e.nd].right == Ref(t) && h.cells[k.e.nd].left == Ref(k.l) && h.cells[k.e.nd].color == k.c
    && (k.l.N? ==> (
        && k.l.e.nd in h.cells && h.cells[k.l.e.nd].color == k.l.c
        && h.cells[k.l.e.nd].right == Ref(k.l.r) && h.cells[k.l.e.nd].left == Ref(k.l.l)
        && (k.l.r.N? ==> k.l.r.e.nd in h.cells && h.cells[k.l.r.e.nd].color == k.l.r.c)
        && (k.l.l.N? ==> k.l.l.e.nd in h.cells && h.cells[k.l.l.e.nd].color == k.l.l.c)))
  }

  lemma LookRight(h: Heap, k: Way, t: Tree)
    requires Conf(h, k, t) && k.InR?
    ensures NearRight(h, k, t) && Upper(k.up) == Upper(k)
    ensures Conf(h, k.up, Fill(k, t))
  {
    hide Conf;
    ConfUp(h, k, t);
    var p := Fill(k, t);
    ConfCell(h, k.up, p);
    ConfLeft(h, k.up, p);
    if k.l.N? {
      var ks := InL(p.e, p.c, p.r, p.d, k.up);
      ConfCell(h, ks, k.l);
      ConfRight(h, ks, k.l);
      ConfLeft(h, ks, k.l);
      if k.l.r.N? {
        ConfCell(h, InR(k.l.e, k.l.c, k.l.l, k.l.d, ks), k.l.r);
      }
      if k.l.l.N? {
        ConfCell(h, InL(k.l.e, k.l.c, k.l.r, k.l.d, ks), k.l.l);
      }
    }
  }

  method LowerRight(tree: DomainTree, up: Node?, parent: Node, sibling: Node, ghost k: Way, ghost t: Tree)
    requires Conf(tree.Now(), k, t) && k.InR? && k.l.N? && up == Upper(k.up)
    requires parent == k.e.nd && sibling == k.l.e.nd && {parent, sibling} <= tree.nodes
    modifies tree`root, tree.nodes`parent, tree.nodes`right, tree.nodes`left, tree.nodes`down, tree.nodes`color
    ensures Conf(tree.Now(), LoweredRight(k), t)
  {
    hide Conf;
    ConfUp(tree.Now(), k, t);
    Paint(tree, parent, Red, k.up, Fill(k, t));
    ghost var p := Dyed(Fill(k, t), Red);
    ConfLeft(tree.Now(), k.up, p);
    ghost var ks := InL(p.e, p.c, p.r, p.d, k.up);
    Paint(tree, sibling, Black, ks, p.l);
    ConfUp(tree.Now(), ks, Dyed(p.l, Black));
    p := Fill(ks, Dyed(p.l, Black));
    TurnRight(tree, up, parent, k.up, p);
    ghost var s := RightRotation(p);
    ConfRight(tree.Now(), k.up, s);
    ConfRight(tree.Now(), InR(s.e, s.c, s.l, s.d, k.up), s.r);
  }

  method PaleRight(tree: DomainTree, parent: Node, sibling: Node, ghost k: Way, ghost t: Tree)
    requires Conf(tree.Now(), k, t) && k.InR? && k.l.N?
    requires parent == k.e.nd && sibling == k.l.e.nd && {parent, sibling} <= tree.nodes
    modifies tree.nodes`color
    ensures Conf(tree.Now(), k.up, PaledRight(k, t))
  {
    hide Conf;
    LookRight(tree.Now(), k, t);
    ghost var p := Fill(k, t);
    ConfLeft(tree.Now(), k.up, p);
    ghost var ks := InL(p.e, p.c, p.r, p.d, k.up);
    Paint(tree, sibling, Red, ks, p.l);
    ConfUp(tree.Now(), ks, Dyed(p.l, Red));
    p := Fill(ks, Dyed(p.l, Red));
    ConfCell(tree.Now(), k.up, p);
    if parent.color == Red {
      Paint(tree, parent, Black, k.up, p);
    }
  }

  method TwistRight(tree: DomainTree, up: Node?, sibling: Node, near: Node, ghost k: Way, ghost t: Tree)
    requires Conf(tree.Now(), k, t) && k.InR? && k.l.N? && k.l.r.N? && up == Upper(k.up)
    requires sibling == k.l.e.nd && near == k.l.r.e.nd && {sibling, near} <= tree.nodes
    modifies tree`root, tree.nodes`parent, tree.nodes`right, tree.nodes`left, tree.nodes`down, tree.nodes`color
    ensures Conf(tree.Now(), TwistedRight(k), t)
  {
    hide Conf;
    ConfUp(tree.Now(), k, t);
    ghost var p := Fill(k, t);
    ConfLeft(tree.Now(), k.up, p);
    ghost var ks := InL(p.e, p.c, p.r, p.d, k.up);
    Paint(tree, sibling, Red, ks, k.l);
    ghost var s := Dyed(k.l, Red);
    ConfRight(tree.Now(), ks, s);
    ghost var kn := InR(s.e, s.c, s.l, s.d, ks);
    Paint(tree, near, Black, kn, s.r);
    ConfUp(tree.Now(), kn, Dyed(s.r, Black));
    s := Fill(kn, Dyed(s.r, Black));
    assert Base(ks) == Base(k.up);
    TurnLeft(tree, up, sibling, ks, s);
    s := LeftRotation(s);
    ConfUp(tree.Now(), ks, s);
    ConfRight(tree.Now(), k.up, Fill(ks, s));
  }

  method CloseGapRight(tree: DomainTree, up: Node?, parent: Node, sibling: Node, far: Node, ghost k: Way, ghost t: Tree)
    requires Conf(tree.Now(), k, t) && k.InR? && k.l.N? && k.l.l.N? && up == Upper(k.up)
    requires parent == k.e.nd && sibling == k.l.e.nd && far == k.l.l.e.nd && {parent, sibling, far} <= tree.nodes
    modifies tree`root, tree.nodes`parent, tree.nodes`right, tree.nodes`left, tree.nodes`down, tree.nodes`color
    ensures Conf(tree.Now(), k.up, ClosedGapRight(k, t))
  {
    hide Conf;
    LookRight(tree.Now(), k, t);
    ghost var p := Fill(k, t);
    ConfLeft(tree.Now(), k.up, p);
    ghost var ks := InL(p.e, p.c, p.r, p.d, k.up);
    Paint(tree, sibling, parent.color, ks, k.l);
    ghost var s := Dyed(k.l, k.c);
    ConfLeft(tree.Now(), ks, s);
    ghost var kf := InL(s.e, s.c, s.r, s.d, ks);
    Paint(tree, far, Black, kf, s.l);
    ConfUp(tree.Now(), kf, Dyed(s.l, Black));
    s := Fill(kf, Dyed(s.l, Black));
    ConfUp(tree.Now(), ks, s);
    p := Fill(ks, s);
    Paint(tree, parent, Black, k.up, p);
    TurnRight(tree, up, parent, k.up, Dyed(p, Black));
  }

  lemma SiblingRight(k: Way, t: Tree, n: nat)
    requires Short(k, t, n) && k.InR?
    ensures k.l.N?
  {
    assert Even(k.l, n + 1);
  }

  /** A black sibling with a red child: the level is mended. */
  method FillGapRight(tree: DomainTree, up: Node?, parent: Node, sibling: Node, ghost k: Way, ghost t: Tree,
                      ghost n: nat)
    returns (ghost t': Tree)
    requires Conf(tree.Now(), k, t) && Short(k, t, n) && k.InR? && k.l.N? && up == Upper(k)
    requires parent == k.e.nd && sibling == k.l.e.nd && NearRight(tree.Now(), k, t)
    requires k.l.c == Black && (Col(k.l.r) == Red || Col(k.l.l) == Red)
    modifies tree`root, tree.nodes`parent, tree.nodes`right, tree.nodes`left, tree.nodes`down, tree.nodes`color
    ensures Conf(tree.Now(), k.up, t') && Whole(k.up, t') == Whole(k, t) && Base(k.up) == Base(k)
    ensures Mended(k.up, t', n + 1 + Weight(k.c))
  {
    hide Conf, Short, Mended, Whole, Base, TwistedRight, ClosedGapRight;
    ghost var k' := k;
    var sibling := sibling;
    LookRight(tree.Now(), k, t);
    if ColorOf(sibling.left) == Black {
      TwistRightKeeps(k, t, n);
      TwistRightEntries(k, t);
      TwistRight(tree, up, sibling, sibling.right, k, t);
      k' := TwistedRight(k);
      LookRight(tree.Now(), k', t);
      sibling := parent.left;
    }
    CloseGapRightKeeps(k', t, n);
    CloseGapRightEntries(k', t);
    CloseGapRight(tree, up, parent, sibling, sibling.left, k', t);
    t' := ClosedGapRight(k', t);
  }

  /** The rest of a round, the sibling being black. */
  method MendBlackRight(tree: DomainTree, up: Node?, parent: Node, sibling: Node, ghost k: Way, ghost t: Tree,
                        ghost n: nat)
    returns (done: bool, ghost k': Way, ghost t': Tree, ghost n': nat)
    requires Conf(tree.Now(), k, t) && Short(k, t, n) && k.InR? && up == Upper(k)
    requires k.l.N? && k.l.c == Black && parent == k.e.nd && sibling == k.l.e.nd
    modifies tree`root, tree.nodes`parent, tree.nodes`right, tree.nodes`left, tree.nodes`down, tree.nodes`color
    ensures Conf(tree.Now(), k', t') && Whole(k', t') == Whole(k, t) && Base(k') == Base(k) && k' == k.up
    ensures if done then Mended(k', t', n') else Short(k', t', n') && t'.N? && t'.e == k.e && k.c == Black
  {
    hide Conf, Short, Mended, Whole, Base, PaledRight;
    LookRight(tree.Now(), k, t);
    done, k', n' := true, k.up, n + 1;
    if ColorOf(sibling.right) == Black && ColorOf(sibling.left) == Black {
      PaleRightKeeps(k, t, n);
      done := parent.color == Red;
      PaleRight(tree, parent, sibling, k, t);
      t' := PaledRight(k, t);
    } else {
      t' := FillGapRight(tree, up, parent, sibling, k, t, n);
      n' := n + 1 + Weight(k.c);
    }
  }

  /** One round of the loop when the gap is on the right; neither panic of `removeRebalance` can happen. */
  method MendRight(tree: DomainTree, up: Node?, child: Node?, parent: Node, ghost k: Way, ghost t: Tree, ghost n: nat)
    returns (done: bool, child': Node?, parent': Node?, ghost k': Way, ghost t': Tree, ghost n': nat)
    requires Conf(tree.Now(), k, t) && Short(k, t, n) && k.InR? && up == Upper(k)
    requires child == Ref(t) && parent == k.e.nd
    modifies tree`root, tree.nodes`parent, tree.nodes`right, tree.nodes`left, tree.nodes`down, tree.nodes`color
    ensures Conf(tree.Now(), k', t') && Whole(k', t') == Whole(k, t) && Base(k') == Base(k)
    ensures if done then Mended(k', t', n') else Short(k', t', n') && child' == Ref(t') && parent' == Above(k')
    ensures !done ==> Depth(k') < Depth(k)
  {
    hide Conf, Short, Mended, Whole, Base, LoweredRight;
    child', parent', k', t', n' := child, parent, k, t, n;
    LookRight(tree.Now(), k, t);
    SiblingRight(k, t, n);
    var sibling := parent.left;
    if sibling.color == Red {
      LowerRightKeeps(k, t, n);
      LowerRightEntries(k, t);
      LowerRight(tree, up, parent, sibling, k, t);
      k' := LoweredRight(k);
      LookRight(tree.Now(), k', t);
      SiblingRight(k', t, n);
      sibling := parent.left;
    }
    done, k', t', n' := MendBlackRight(tree, up, parent, sibling, k', t, n);
    if !done {
      ConfCell(tree.Now(), k', t');
      child', parent' := parent, parent.parent;
    }
  }

  /** Whether a hole is the left child of its parent, told from the pointers as `getSibling` does. */
  lemma GapSide(h: Heap, k: Way, t: Tree, n: nat)
    requires Conf(h, k, t) && Short(k, t, n) && Above(k) != null
    ensures Above(k) in h.cells && (h.cells[Above(k)].left == Ref(t) <==> k.InL?)
  {
    if k.InL? {
      LookLeft(h, k, t);
    } else {
      LookRight(h, k, t);
      SiblingRight(k, t, n);
      RefIn(t);
      RefIn(k.l);
    }
  }

  /** After the repair the level holds the same nodes in the same order, and it is balanced. */
  method RemoveRebalance(tree: DomainTree, up: Node?, child: Node?, parent: Node?, ghost k: Way, ghost t: Tree,
                         ghost n: nat)
    returns (ghost t': Tree)
    requires Conf(tree.Now(), k, t) && Short(k, t, n) && child == Ref(t) && parent == Above(k) && up == Upper(k)
    modifies tree`root, tree.nodes`parent, tree.nodes`left, tree.nodes`right, tree.nodes`down, tree.nodes`color
    ensures Conf(tree.Now(), Base(k), t') && Entries(t') == Whole(k, t) && Balanced(t')
  {
    hide Conf, Short, Mended, Whole, Base, Balanced, Entries;
    var child, parent := child, parent;
    ghost var k', s, m := k, t, n;
    while parent != null
      invariant Conf(tree.Now(), k', s) && Short(k', s, m) && child == Ref(s) && parent == Above(k')
      invariant Whole(k', s) == Whole(k, t) && Base(k') == Base(k)
      decreases Depth(k')
    {
      GapSide(tree.Now(), k', s, m);
      var done;
      if parent.left == child {
        done, child, parent, k', s, m := MendLeft(tree, up, child, parent, k', s, m);
      } else {
        done, child, parent, k', s, m := MendRight(tree, up, child, parent, k', s, m);
      }
      if done {
        MendedBalanced(tree.Now(), k', s, m);
        t' := Closed(k', s);
        return;
      }
    }
    NoGap(k', s, m);
    MendedBalanced(tree.Now(), k', s, m);
    t' := Closed(k', s);
  }

  /** At the top of a level nothing is missing. */
  lemma NoGap(k: Way, t: Tree, n: nat)
    requires Short(k, t, n) && Above(k) == null
    ensures Mended(k, t, n)
  {
  }
}
