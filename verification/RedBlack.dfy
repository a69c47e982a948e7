/** What balance and order mean for a level, and for a level with a hole in it. */
module RedBlack {
  import opened Names
  import opened Trees
  import opened Rotations

  function Col(t: Tree): Color {
    if t.Leaf? then Black else t.c
  }

  function Weight(c: Color): nat {
    if c == Black then 1 else 0
  }

  /** Every way down from the top of the level meets `n` black nodes. */
  predicate Even(t: Tree, n: nat) {
    match t
    case Leaf => n == 0
    case N(_, c, l, r, _) => n >= Weight(c) && Even(l, n - Weight(c)) && Even(r, n - Weight(c))
  }

  /** No red node of the level has a red child. */
  predicate Calm(t: Tree) {
    match t
    case Leaf => true
    case N(_, c, l, r, _) => Calm(l) && Calm(r) && (c == Red ==> Col(l) == Black && Col(r) == Black)
  }

  /** A level by itself: balanced, no two reds in a row, black at the top. */
  ghost predicate Balanced(t: Tree) {
    Col(t) == Black && Calm(t) && exists n: nat :: Even(t, n)
  }

  // The same for the level around a hole.

  function WayCol(k: Way): Color {
    if k.InL? || k.InR? then k.c else Black
  }

  predicate WayEven(k: Way, n: nat) {
    match k
    case InL(_, c, r, _, up) => Even(r, n) && WayEven(up, n + Weight(c))
    case InR(_, c, l, _, up) => Even(l, n) && WayEven(up, n + Weight(c))
    case _ => true
  }

  predicate WayCalm(k: Way) {
    match k
    case InL(_, c, r, _, up) => Calm(r) && WayCalm(up) && (c == Red ==> Col(r) == Black && WayCol(up) == Black)
    case InR(_, c, l, _, up) => Calm(l) && WayCalm(up) && (c == Red ==> Col(l) == Black && WayCol(up) == Black)
    case _ => true
  }

  /** The top of the level is black, unless the hole is the top. */
  predicate TopBlack(k: Way) {
    (k.InL? || k.InR?) ==> if k.up.InL? || k.up.InR? then TopBlack(k.up) else k.c == Black
  }

  /** One node of a level: what it stores and the level that it holds. */
  datatype Entry = Entry(e: Info, d: Tree)

  /** The nodes of a level from left to right. */
  ghost function Entries(t: Tree): seq<Entry> {
    match t
    case Leaf => []
    case N(e, _, l, r, d) => Entries(l) + [Entry(e, d)] + Entries(r)
  }

  ghost function Before(k: Way): seq<Entry> {
    match k
    case InL(_, _, _, _, up) => Before(up)
    case InR(e, _, l, d, up) => Before(up) + Entries(l) + [Entry(e, d)]
    case _ => []
  }

  ghost function After(k: Way): seq<Entry> {
    match k
    case InL(e, _, r, d, up) => [Entry(e, d)] + Entries(r) + After(up)
    case InR(_, _, _, _, up) => After(up)
    case _ => []
  }

  /** The nodes of the whole level with `t` in the hole. */
  ghost function Whole(k: Way, t: Tree): seq<Entry> {
    Before(k) + Entries(t) + After(k)
  }

  /** The whole level with `t` in the hole. */
  ghost function Closed(k: Way, t: Tree): Tree
    decreases k
  {
    if k.InL? || k.InR? then Closed(k.up, Fill(k, t)) else t
  }

  lemma WholeUp(k: Way, t: Tree)
    requires k.InL? || k.InR?
    ensures Whole(k, t) == Whole(k.up, Fill(k, t)) && Base(k.up) == Base(k)
  {
    if k.InL? {
      AssocLeft(Before(k.up), Entries(t), [Entry(k.e, k.d)], Entries(k.r), After(k.up));
    } else {
      AssocRight(Before(k.up), Entries(k.l), [Entry(k.e, k.d)], Entries(t), After(k.up));
    }
  }

  lemma AssocLeft(a: seq<Entry>, t: seq<Entry>, e: seq<Entry>, r: seq<Entry>, z: seq<Entry>)
    ensures a + t + (e + r + z) == a + (t + e + r) + z
  {
  }

  lemma AssocRight(a: seq<Entry>, l: seq<Entry>, e: seq<Entry>, t: seq<Entry>, z: seq<Entry>)
    ensures a + l + e + t + z == a + (l + e + t) + z
  {
  }

  lemma {:induction false} ClosedConf(h: Heap, k: Way, t: Tree)
    requires Conf(h, k, t)
    ensures Conf(h, Base(k), Closed(k, t))
    decreases k
  {
    hide Conf;
    if k.InL? || k.InR? {
      ConfUp(h, k, t);
      ClosedConf(h, k.up, Fill(k, t));
    }
  }

  lemma {:induction false} ClosedEntries(k: Way, t: Tree)
    ensures Entries(Closed(k, t)) == Whole(k, t)
    decreases k
  {
    if k.InL? || k.InR? {
      WholeUp(k, t);
      ClosedEntries(k.up, Fill(k, t));
    }
  }

  /** Balance of the parts is balance of the whole, once the colours at the hole agree. */
  lemma {:induction false} ClosedBalanced(k: Way, t: Tree, n: nat) returns (m: nat)
    requires Even(t, n) && WayEven(k, n) && Calm(t) && WayCalm(k) && TopBlack(k)
    requires WayCol(k) == Red ==> Col(t) == Black
    ensures Even(Closed(k, t), m) && Calm(Closed(k, t))
    ensures (k.InL? || k.InR?) ==> Col(Closed(k, t)) == Black
    decreases k
  {
    m := n;
    if k.InL? || k.InR? {
      m := ClosedBalanced(k.up, Fill(k, t), n + Weight(k.c));
    }
  }

  lemma LeftEntries(t: Tree)
    requires t.N? && t.r.N?
    ensures Entries(LeftRotation(t)) == Entries(t)
  {
  }

  lemma RightEntries(t: Tree)
    requires t.N? && t.l.N?
    ensures Entries(RightRotation(t)) == Entries(t)
  {
  }

  lemma ColorEntries(t: Tree, c: Color)
    ensures Entries(Dyed(t, c)) == Entries(t)
  {
  }
}
