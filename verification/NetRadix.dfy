/** The bit tree of `cement/netradix/tree.go` for 32-bit keys: insertion and longest-prefix lookup. */
module NetRadix {
  import opened Octets
  import opened Options
  import opened NetBits

  // ----- The tree as a value -----

  class Node {
    var left: Node?
    var right: Node?
    var parent: Node?
    var value: Option<int>

    constructor ()
      ensures left == null && right == null && parent == null && value == None
    {
      left, right, parent, value := null, null, null, None;
    }
  }

  datatype Cell = Cell(parent: Node?, left: Node?, right: Node?, value: Option<int>)

  type Cells = map<Node, Cell>

  datatype Trie = Nil | T(nd: Node, v: Option<int>, l: Trie, r: Trie)

  /** The way from a place up to the root. */
  datatype Way = Top | InL(nd: Node, v: Option<int>, r: Trie, up: Way) | InR(nd: Node, v: Option<int>, l: Trie, up: Way)

  function Ref(t: Trie): Node? {
    if t.Nil? then null else t.nd
  }

  function Above(k: Way): Node? {
    if k.Top? then null else k.nd
  }

  ghost function Nodes(t: Trie): set<Node> {
    match t
    case Nil => {}
    case T(nd, _, l, r) => {nd} + Nodes(l) + Nodes(r)
  }

  ghost function WayNodes(k: Way): set<Node> {
    match k
    case Top => {}
    case InL(nd, _, r, up) => {nd} + Nodes(r) + WayNodes(up)
    case InR(nd, _, l, up) => {nd} + Nodes(l) + WayNodes(up)
  }

  ghost predicate Holds(m: Cells, nd: Node, c: Cell) {
    nd in m && m[nd] == c
  }

  ghost predicate Sub(m: Cells, p: Node?, t: Trie)
    decreases t
  {
    match t
    case Nil => true
    case T(nd, v, l, r) =>
      && Holds(m, nd, Cell(p, Ref(l), Ref(r), v)) && Sub(m, nd, l) && Sub(m, nd, r)
      && nd !in Nodes(l) && nd !in Nodes(r) && Nodes(l) !! Nodes(r)
  }

  ghost predicate Around(m: Cells, k: Way, hole: Node?, root: Node?)
    decreases k
  {
    match k
    case Top => hole == root
    case InL(nd, v, r, up) =>
      && Holds(m, nd, Cell(Above(up), hole, Ref(r), v)) && Sub(m, nd, r) && Around(m, up, nd, root)
      && nd !in Nodes(r) && nd !in WayNodes(up) && Nodes(r) !! WayNodes(up)
    case InR(nd, v, l, up) =>
      && Holds(m, nd, Cell(Above(up), Ref(l), hole, v)) && Sub(m, nd, l) && Around(m, up, nd, root)
      && nd !in Nodes(l) && nd !in WayNodes(up) && Nodes(l) !! WayNodes(up)
  }

  /** The links hold the tree `t` at the place `k`. */
  ghost predicate Conf(m: Cells, root: Node?, k: Way, t: Trie) {
    Around(m, k, Ref(t), root) && Sub(m, Above(k), t) && Nodes(t) !! WayNodes(k)
  }

  ghost predicate SameOn(m: Cells, m': Cells, s: set<Node>) {
    forall o :: o in s && o in m ==> o in m' && m'[o] == m[o]
  }

  lemma {:induction false} SubFrame(m: Cells, m': Cells, p: Node?, t: Trie)
    requires Sub(m, p, t) && SameOn(m, m', Nodes(t))
    ensures Sub(m', p, t)
    decreases t
  {
    if t.T? {
      SubFrame(m, m', t.nd, t.l);
      SubFrame(m, m', t.nd, t.r);
    }
  }

  lemma {:induction false} AroundFrame(m: Cells, m': Cells, k: Way, hole: Node?, root: Node?)
    requires Around(m, k, hole, root) && SameOn(m, m', WayNodes(k))
    ensures Around(m', k, hole, root)
    decreases k
  {
    match k {
      case Top =>
      case InL(nd, v, r, up) =>
        SubFrame(m, m', nd, r);
        AroundFrame(m, m', up, nd, root);
      case InR(nd, v, l, up) =>
        SubFrame(m, m', nd, l);
        AroundFrame(m, m', up, nd, root);
    }
  }

  lemma {:induction false} SubKnown(m: Cells, p: Node?, t: Trie)
    requires Sub(m, p, t)
    ensures Nodes(t) <= m.Keys
    decreases t
  {
    if t.T? {
      SubKnown(m, t.nd, t.l);
      SubKnown(m, t.nd, t.r);
    }
  }

  lemma {:induction false} AroundKnown(m: Cells, k: Way, hole: Node?, root: Node?)
    requires Around(m, k, hole, root)
    ensures WayNodes(k) <= m.Keys
    decreases k
  {
    if k.InL? {
      SubKnown(m, k.nd, k.r);
      AroundKnown(m, k.up, k.nd, root);
    } else if k.InR? {
      SubKnown(m, k.nd, k.l);
      AroundKnown(m, k.up, k.nd, root);
    }
  }

  // ----- Places and prefixes -----

  function Child(t: Trie, b: bool): Trie
    requires t.T?
  {
    if b then t.r else t.l
  }

  /** The place of a child. */
  function Into(k: Way, t: Trie, b: bool): Way
    requires t.T?
  {
    if b then InR(t.nd, t.v, t.l, k) else InL(t.nd, t.v, t.r, k)
  }

  ghost function All(k: Way, t: Trie): Trie
    decreases k
  {
    match k
    case Top => t
    case InL(nd, v, r, up) => All(up, T(nd, v, t, r))
    case InR(nd, v, l, up) => All(up, T(nd, v, l, t))
  }

  ghost function PathOf(k: Way): seq<bool> {
    match k
    case Top => []
    case InL(_, _, _, up) => PathOf(up) + [false]
    case InR(_, _, _, up) => PathOf(up) + [true]
  }

  /** The value at a prefix. */
  ghost function At(t: Trie, p: seq<bool>): Option<int>
    decreases p
  {
    if t.Nil? then None else if p == [] then t.v else At(Child(t, p[0]), p[1..])
  }

  lemma ConfInto(m: Cells, root: Node?, k: Way, t: Trie, b: bool)
    requires Conf(m, root, k, t) && t.T?
    ensures Conf(m, root, Into(k, t, b), Child(t, b)) && All(Into(k, t, b), Child(t, b)) == All(k, t)
    ensures PathOf(Into(k, t, b)) == PathOf(k) + [b]
    ensures Holds(m, t.nd, Cell(Above(k), Ref(t.l), Ref(t.r), t.v))
  {
  }

  lemma {:induction false} AtPlace(k: Way, t: Trie, p: seq<bool>)
    ensures At(All(k, t), PathOf(k) + p) == At(t, p)
    decreases k
  {
    if !k.Top? {
      var b := k.InR?;
      var u := if b then T(k.nd, k.v, k.l, t) else T(k.nd, k.v, t, k.r);
      AtPlace(k.up, u, [b] + p);
      assert PathOf(k.up) + ([b] + p) == PathOf(k) + p;
      assert ([b] + p)[1..] == p;
    } else {
      assert [] + p == p;
    }
  }

  /** A change at one place does not show at prefixes that do not lead there. */
  lemma {:induction false} AtOther(k: Way, t: Trie, t': Trie, q: seq<bool>)
    requires !(PathOf(k) <= q)
    ensures At(All(k, t), q) == At(All(k, t'), q)
    decreases k
  {
    var b := k.InR?;
    var u := if b then T(k.nd, k.v, k.l, t) else T(k.nd, k.v, t, k.r);
    var u' := if b then T(k.nd, k.v, k.l, t') else T(k.nd, k.v, t', k.r);
    var p := PathOf(k.up);
    if p <= q {
      AtPlace(k.up, u, q[|p|..]);
      AtPlace(k.up, u', q[|p|..]);
      assert q == p + q[|p|..];
    } else {
      AtOther(k.up, u, u', q);
    }
  }

  // ----- One change of the links -----

  /** The links after the value of a node is set. */
  ghost function Valued(m: Cells, nd: Node, v: Option<int>): Cells
    requires nd in m
  {
    m[nd := m[nd].(value := v)]
  }

  /** The links after a new node is hung under another one. */
  ghost function Grown(m: Cells, nd: Node, b: bool, new_: Node): Cells
    requires nd in m
  {
    m[nd := if b then m[nd].(right := new_) else m[nd].(left := new_)][new_ := Cell(nd, null, null, None)]
  }

  function Leaf(nd: Node): Trie {
    T(nd, None, Nil, Nil)
  }

  lemma ValuedConf(m: Cells, root: Node?, k: Way, t: Trie, v: Option<int>)
    requires Conf(m, root, k, t) && t.T? && t.nd in m
    ensures Conf(Valued(m, t.nd, v), root, k, t.(v := v))
  {
    var m' := Valued(m, t.nd, v);
    SubFrame(m, m', t.nd, t.l);
    SubFrame(m, m', t.nd, t.r);
    AroundFrame(m, m', k, t.nd, root);
  }

  lemma GrownConf(m: Cells, root: Node?, k: Way, t: Trie, b: bool, nd: Node)
    requires Conf(m, root, k, t) && t.T? && t.nd in m && Child(t, b).Nil? && nd !in m
    ensures Conf(Grown(m, t.nd, b, nd), root, Into(k, t, b), Leaf(nd))
  {
    var m' := Grown(m, t.nd, b, nd);
    SubKnown(m, Above(k), t);
    AroundKnown(m, k, t.nd, root);
    SubFrame(m, m', t.nd, t.l);
    SubFrame(m, m', t.nd, t.r);
    AroundFrame(m, m', k, t.nd, root);
  }

  /** Setting the value at a place changes the value at its prefix and at no other. */
  lemma ValuedAt(k: Way, t: Trie, v: Option<int>, q: seq<bool>)
    requires t.T?
    ensures At(All(k, t.(v := v)), q) == if q == PathOf(k) then v else At(All(k, t), q)
  {
    var p := PathOf(k);
    if p <= q {
      AtPlace(k, t, q[|p|..]);
      AtPlace(k, t.(v := v), q[|p|..]);
      assert q == p + q[|p|..];
      if q[|p|..] == [] {
        assert q == p;
      }
    } else {
      AtOther(k, t, t.(v := v), q);
    }
  }

  /** A new node without a value changes no value. */
  lemma GrownAt(k: Way, t: Trie, b: bool, nd: Node, q: seq<bool>)
    requires t.T? && Child(t, b).Nil?
    ensures At(All(Into(k, t, b), Leaf(nd)), q) == At(All(k, t), q)
  {
    var p := PathOf(k);
    var t' := if b then t.(r := Leaf(nd)) else t.(l := Leaf(nd));
    assert All(Into(k, t, b), Leaf(nd)) == All(k, t');
    if p <= q {
      AtPlace(k, t, q[|p|..]);
      AtPlace(k, t', q[|p|..]);
      assert q == p + q[|p|..];
      var rest := q[|p|..];
      if rest != [] && rest[0] == b {
        assert At(Leaf(nd), rest[1..]) == None;
      }
    } else {
      AtOther(k, t, t', q);
    }
  }

  /** A prefix that leads to an empty place, or past it, has no value. */
  lemma AtGap(k: Way, q: seq<bool>)
    requires PathOf(k) <= q
    ensures At(All(k, Nil), q) == None
  {
    AtPlace(k, Nil, q[|PathOf(k)|..]);
    assert q == PathOf(k) + q[|PathOf(k)|..];
  }

  lemma {:induction false} ConfTop(m: Cells, root: Node?, k: Way, t: Trie)
    requires Conf(m, root, k, t)
    ensures Conf(m, root, Top, All(k, t))
    decreases k
  {
    match k {
      case Top =>
      case InL(nd, v, r, up) => ConfTop(m, root, up, T(nd, v, t, r));
      case InR(nd, v, l, up) => ConfTop(m, root, up, T(nd, v, l, t));
    }
  }

  lemma {:induction false} AllNode(k: Way, t: Trie)
    requires t.T?
    ensures All(k, t).T?
    decreases k
  {
    if k.InL? {
      AllNode(k.up, T(k.nd, k.v, t, k.r));
    } else if k.InR? {
      AllNode(k.up, T(k.nd, k.v, k.l, t));
    }
  }

  lemma PathStep(k: Way, t: Trie, b: bool, rest: seq<bool>, p: seq<bool>)
    requires t.T? && PathOf(k) + ([b] + rest) == p
    ensures PathOf(Into(k, t, b)) + rest == p
  {
  }

  // ----- Runs -----

  /** One insertion: its key and mask, and the value it brings, which may be nil. */
  datatype Op = Op(key: uint32, mask: uint32, value: Option<int>)

  function Bits(op: Op): seq<bool> {
    Prefix(op.key, op.mask, START_BIT)
  }

  /** What a run of insertions leaves at a prefix: the first value brought there. */
  ghost function First(ops: seq<Op>, q: seq<bool>): Option<int> {
    if ops == [] then None
    else
      var before := First(ops[..|ops| - 1], q);
      var op := ops[|ops| - 1];
      if before.Some? then before else if Bits(op) == q then op.value else None
  }

  lemma FirstAdd(ops: seq<Op>, op: Op, q: seq<bool>)
    ensures First(ops + [op], q) ==
      if First(ops, q).Some? then First(ops, q) else if Bits(op) == q then op.value else None
  {
    assert (ops + [op])[..|ops|] == ops;
  }

  ghost predicate Tells(t: Trie, ops: seq<Op>) {
    forall q :: At(t, q) == First(ops, q)
  }

  /** An insertion at a prefix that has a value leaves what the run tells. */
  lemma Refused(t: Trie, ops: seq<Op>, op: Op)
    requires Tells(t, ops) && At(t, Bits(op)).Some?
    ensures Tells(t, ops + [op])
  {
    forall q ensures At(t, q) == First(ops + [op], q) {
      FirstAdd(ops, op, q);
    }
  }

  /** An insertion at a prefix without a value. */
  lemma Accepted(k: Way, t: Trie, ops: seq<Op>, op: Op)
    requires t.T? && t.v == None && Tells(All(k, t), ops) && Bits(op) == PathOf(k)
    ensures Tells(All(k, t.(v := op.value)), ops + [op])
  {
    AtPlace(k, t, []);
    assert PathOf(k) + [] == PathOf(k);
    forall q ensures At(All(k, t.(v := op.value)), q) == First(ops + [op], q) {
      FirstAdd(ops, op, q);
      ValuedAt(k, t, op.value, q);
    }
  }

  lemma GrownTells(k: Way, t: Trie, b: bool, nd: Node, ops: seq<Op>)
    requires t.T? && Child(t, b).Nil? && Tells(All(k, t), ops)
    ensures Tells(All(Into(k, t, b), Leaf(nd)), ops)
  {
    forall q ensures At(All(Into(k, t, b), Leaf(nd)), q) == First(ops, q) {
      GrownAt(k, t, b, nd, q);
    }
  }

  /** `r` is the value of the longest prefix of `p`, shorter than `d`, that has one. */
  ghost predicate Longest(ops: seq<Op>, p: seq<bool>, d: nat, r: Option<int>)
    requires d <= |p| + 1
  {
    match r
    case None => forall n: nat :: n < d ==> First(ops, p[..n]) == None
    case Some(_) => exists n: nat :: n < d && First(ops, p[..n]) == r && Bare(ops, p, n + 1, d)
  }

  /** No prefix of `p` of a length from `lo` and below `hi` has a value. */
  ghost predicate Bare(ops: seq<Op>, p: seq<bool>, lo: nat, hi: nat)
    requires hi <= |p| + 1
  {
    forall n: nat :: lo <= n < hi ==> First(ops, p[..n]) == None
  }

  lemma LongestStep(ops: seq<Op>, p: seq<bool>, d: nat, r: Option<int>)
    requires d <= |p| && Longest(ops, p, d, r)
    ensures Longest(ops, p, d + 1, if First(ops, p[..d]).Some? then First(ops, p[..d]) else r)
  {
    var f := First(ops, p[..d]);
    if f.Some? {
      assert Bare(ops, p, d + 1, d + 1);
    } else if r.Some? {
      var n: nat :| n < d && First(ops, p[..n]) == r && Bare(ops, p, n + 1, d);
      assert Bare(ops, p, n + 1, d + 1);
    }
  }

  lemma LongestRest(ops: seq<Op>, p: seq<bool>, d: nat, r: Option<int>)
    requires d <= |p| + 1 && Longest(ops, p, d, r) && Bare(ops, p, d, |p| + 1)
    ensures Longest(ops, p, |p| + 1, r)
  {
    if r.Some? {
      var n: nat :| n < d && First(ops, p[..n]) == r && Bare(ops, p, n + 1, d);
      assert Bare(ops, p, n + 1, |p| + 1);
    }
  }

  /** The value of a node on the way is the value at the part of the prefix that leads to it. */
  lemma AtPrefix(k: Way, t: Trie, p: seq<bool>, rest: seq<bool>)
    requires t.T? && PathOf(k) + rest == p
    ensures At(All(k, t), p[..|PathOf(k)|]) == t.v
  {
    AtPlace(k, t, []);
    assert p[..|PathOf(k)|] == PathOf(k) + [];
  }

  lemma BareGap(k: Way, ops: seq<Op>, p: seq<bool>, rest: seq<bool>)
    requires PathOf(k) + rest == p && Tells(All(k, Nil), ops)
    ensures Bare(ops, p, |PathOf(k)|, |p| + 1)
  {
    forall n: nat | |PathOf(k)| <= n <= |p| ensures First(ops, p[..n]) == None {
      assert PathOf(k) <= p[..n];
      AtGap(k, p[..n]);
    }
  }

  lemma Arrived(k: Way, t: Trie, p: seq<bool>, ops: seq<Op>)
    requires t.T? && PathOf(k) + [] == p && Tells(All(k, t), ops)
    ensures At(All(k, t), p) == t.v == First(ops, p) && PathOf(k) == p
  {
    AtPlace(k, t, []);
  }

  lemma Missing(k: Way, t: Trie, b: bool, p: seq<bool>, rest: seq<bool>, ops: seq<Op>)
    requires t.T? && Child(t, b).Nil? && rest != [] && rest[0] == b && PathOf(k) + rest == p && Tells(All(k, t), ops)
    ensures First(ops, p) == None
  {
    AtPlace(k, t, rest);
  }

  // ----- On keys and masks -----

  /** An insertion under `n` leading ones whose key agrees with `key` in as many leading bits. */
  ghost predicate Covers(op: Op, key: uint32, n: nat)
    requires n <= 32
  {
    Ones(op.mask) == n && op.key / Pow2(32 - n) == key / Pow2(32 - n)
  }

  /** The first value brought by an insertion that covers a key at a length. */
  ghost function Held(ops: seq<Op>, key: uint32, n: nat): Option<int>
    requires n <= 32
  {
    if ops == [] then None
    else
      var before := Held(ops[..|ops| - 1], key, n);
      var op := ops[|ops| - 1];
      if before.Some? then before else if Covers(op, key, n) then op.value else None
  }

  /** The value of the longest inserted mask, no longer than `mask`, that covers the key. */
  ghost predicate Answers(ops: seq<Op>, key: uint32, mask: uint32, r: Option<int>) {
    match r
    case None => forall n: nat :: n <= Ones(mask) ==> Held(ops, key, n) == None
    case Some(_) =>
      exists n: nat :: n <= Ones(mask) && Held(ops, key, n) == r && NoneLonger(ops, key, mask, n)
  }

  ghost predicate NoneLonger(ops: seq<Op>, key: uint32, mask: uint32, n: nat) {
    forall m: nat :: n < m <= Ones(mask) ==> Held(ops, key, m) == None
  }

  /** What the bits tell of a run of insertions is what the numbers tell. */
  lemma {:induction false} FirstTells(ops: seq<Op>, key: uint32, mask: uint32, n: nat)
    requires n <= Ones(mask)
    ensures |Prefix(key, mask, START_BIT)| == Ones(mask)
    ensures First(ops, Prefix(key, mask, START_BIT)[..n]) == Held(ops, key, n)
    decreases |ops|
  {
    hide Prefix, Ones, Pow2;
    SamePrefix(key, mask, n, key, mask);
    if ops != [] {
      var op := ops[|ops| - 1];
      FirstTells(ops[..|ops| - 1], key, mask, n);
      SamePrefix(key, mask, n, op.key, op.mask);
    }
  }

  lemma FirstWhole(ops: seq<Op>, key: uint32, mask: uint32)
    ensures First(ops, Prefix(key, mask, START_BIT)) == Held(ops, key, Ones(mask))
  {
    hide Prefix, Ones, First, Held;
    FirstTells(ops, key, mask, Ones(mask));
    var p := Prefix(key, mask, START_BIT);
    assert p[..|p|] == p;
  }

  lemma AnswersTold(ops: seq<Op>, key: uint32, mask: uint32, r: Option<int>)
    ensures var p := Prefix(key, mask, START_BIT);
      Longest(ops, p, |p| + 1, r) <==> Answers(ops, key, mask, r)
  {
    hide Prefix, Ones, First, Held;
    var p := Prefix(key, mask, START_BIT);
    SamePrefix(key, mask, 0, key, mask);
    forall n: nat | n <= |p| ensures First(ops, p[..n]) == Held(ops, key, n) {
      FirstTells(ops, key, mask, n);
    }
    if r.Some? && Longest(ops, p, |p| + 1, r) {
      var n: nat :| n < |p| + 1 && First(ops, p[..n]) == r && Bare(ops, p, n + 1, |p| + 1);
      assert NoneLonger(ops, key, mask, n);
    }
    if r.Some? && Answers(ops, key, mask, r) {
      var n: nat :| n <= Ones(mask) && Held(ops, key, n) == r && NoneLonger(ops, key, mask, n);
      assert Bare(ops, p, n + 1, |p| + 1);
    }
  }

  class RadixTree {
    var root: Node
    ghost var nodes: set<Node>
    ghost var shape: Trie
    ghost var ops: seq<Op>

    ghost function Now(): Cells
      reads `nodes, nodes
    {
      map nd | nd in nodes :: Cell(nd.parent, nd.left, nd.right, nd.value)
    }

    /** The links are a tree, and it holds what the run of insertions brought. */
    ghost predicate Valid()
      reads this, nodes
    {
      shape.T? && Conf(Now(), root, Top, shape) && Tells(shape, ops)
    }

    /** A tree of one node, with no value. */
    constructor Empty()
      ensures Valid() && fresh(nodes) && ops == []
    {
      var top := new Node();
      root := top;
      nodes := {top};
      shape := Leaf(top);
      ops := [];
    }

    /** Hangs a new node under another one. */
    method Hang(node: Node, b: bool, ghost k: Way, ghost t: Trie) returns (next: Node)
      requires Conf(Now(), root, k, t) && t.T? && t.nd == node && Child(t, b).Nil? && node in nodes
      modifies `nodes, node`left, node`right
      ensures fresh(next) && nodes == old(nodes) + {next}
      ensures Conf(Now(), root, Into(k, t, b), Leaf(next))
    {
      hide Around, Sub, All, PathOf, Nodes, WayNodes;
      ghost var m := Now();
      next := new Node();
      next.parent := node;
      if b {
        node.right := next;
      } else {
        node.left := next;
      }
      nodes := nodes + {next};
      assert Now() == Grown(m, node, b, next);
      GrownConf(m, root, k, t, b, next);
    }

    /** Makes the nodes that are missing on the way to a prefix. */
    method Extend(key: uint32, mask: uint32, start: nat, top: Node, ghost k0: Way, ghost t0: Trie)
      returns (node: Node, ghost k: Way, ghost t: Trie)
      requires Conf(Now(), root, k0, t0) && t0.T? && t0.nd == top && Tells(All(k0, t0), ops)
      requires Test(mask, start) && Child(t0, Test(key, start)).Nil?
      modifies `nodes, nodes
      ensures Conf(Now(), root, k, t) && t.T? && t.nd == node && t.v == None && Tells(All(k, t), ops)
      ensures PathOf(k) == PathOf(k0) + Prefix(key, mask, start)
      ensures fresh(nodes - old(nodes)) && old(nodes) <= nodes
    {
      hide Around, Sub, At, First, All, PathOf, Nodes, WayNodes, Tells;
      ghost var p := PathOf(k0) + Prefix(key, mask, start);
      var bit := start;
      node, k, t := top, k0, t0;
      while Test(mask, bit)
        invariant Conf(Now(), root, k, t) && t.T? && t.nd == node && Tells(All(k, t), ops)
        invariant if Test(mask, bit) then Child(t, Test(key, bit)).Nil? else t.v == None
        invariant PathOf(k) + Prefix(key, mask, bit) == p
        invariant fresh(nodes - old(nodes)) && old(nodes) <= nodes
        decreases bit
      {
        var b := Test(key, bit);
        ConfInto(Now(), root, k, t, b);
        PathStep(k, t, b, Prefix(key, mask, bit / 2), p);
        var next := Hang(node, b, k, t);
        GrownTells(k, t, b, next, ops);
        bit := bit / 2;
        k, t := Into(k, t, b), Leaf(next);
        node := next;
      }
    }

    /** Sets the value of a node. */
    method SetValue(node: Node, value: Option<int>, ghost op: Op, ghost k: Way, ghost t: Trie)
      requires Conf(Now(), root, k, t) && t.T? && t.nd == node && t.v == None && Tells(All(k, t), ops)
      requires node in nodes && op.value == value && Bits(op) == PathOf(k)
      modifies node`value, `shape, `ops
      ensures Valid() && ops == old(ops) + [op]
    {
      hide Around, Sub, At, First, All, PathOf, Nodes, WayNodes, Tells;
      ghost var m := Now();
      node.value := value;
      assert Now() == Valued(m, node, value);
      ValuedConf(m, root, k, t, value);
      ConfTop(Now(), root, k, t.(v := value));
      AllNode(k, t.(v := value));
      Accepted(k, t, ops, op);
      shape := All(k, t.(v := value));
      ops := ops + [op];
    }

    /** Follows the bits of a key, to the end of the mask or to the first node that is missing. */
    method Descend(key: uint32, mask: uint32)
      returns (node: Node, next: Node?, bit: nat, ghost k: Way, ghost t: Trie)
      requires Valid()
      ensures Conf(Now(), root, k, t) && t.T? && t.nd == node && All(k, t) == shape
      ensures PathOf(k) + Prefix(key, mask, bit) == Prefix(key, mask, START_BIT)
      ensures if next == null then Test(mask, bit) && Child(t, Test(key, bit)).Nil? else !Test(mask, bit)
      ensures node in nodes && node.value == t.v
    {
      ghost var p := Prefix(key, mask, START_BIT);
      bit, node, next, k, t := START_BIT, root, root, Top, shape;
      while Test(mask, bit)
        invariant Conf(Now(), root, k, t) && t.T? && t.nd == node && next == node && All(k, t) == shape
        invariant PathOf(k) + Prefix(key, mask, bit) == p
        decreases bit
      {
        ConfInto(Now(), root, k, t, Test(key, bit));
        if Test(key, bit) {
          next := node.right;
        } else {
          next := node.left;
        }
        if next == null {
          return;
        }
        PathStep(k, t, Test(key, bit), Prefix(key, mask, bit / 2), p);
        k, t := Into(k, t, Test(key, bit)), Child(t, Test(key, bit));
        bit := bit / 2;
        node := next;
      }
      ConfInto(Now(), root, k, t, false);
    }

    method Insert32(key: uint32, mask: uint32, value: Option<int>) returns (ok: bool)
      requires Valid()
      modifies this, nodes
      ensures Valid() && root == old(root) && fresh(nodes - old(nodes))
      ensures ops == old(ops) + [Op(key, mask, value)]
      ensures ok <==> Held(old(ops), key, Ones(mask)) == None
    {
      hide Around, Sub, Conf, At, First, All, PathOf, Nodes, WayNodes, Tells, Ones, Held;
      ghost var p, op := Prefix(key, mask, START_BIT), Op(key, mask, value);
      FirstWhole(ops, key, mask);
      var node, next, bit, k, t := Descend(key, mask);
      if next != null {
        Arrived(k, t, p, ops);
        if node.value != None {
          Refused(shape, ops, op);
          ops := ops + [op];
          return false;
        }
        SetValue(node, value, op, k, t);
        return true;
      }
      Missing(k, t, Test(key, bit), p, Prefix(key, mask, bit), ops);
      node, k, t := Extend(key, mask, bit, node, k, t);
      ConfInto(Now(), root, k, t, false);
      SetValue(node, value, op, k, t);
      return true;
    }

    method Find32(key: uint32, mask: uint32) returns (value: Option<int>)
      requires Valid()
      ensures Answers(ops, key, mask, value)
    {
      hide Ones, Held, Answers;
      ghost var p := Prefix(key, mask, START_BIT);
      var bit := START_BIT;
      var node: Node? := root;
      ghost var k, t := Top, shape;
      value := None;
      while node != null
        invariant Conf(Now(), root, k, t) && Ref(t) == node && All(k, t) == shape
        invariant PathOf(k) + Prefix(key, mask, bit) == p
        invariant Longest(ops, p, |PathOf(k)|, value)
        decreases t
      {
        ConfInto(Now(), root, k, t, Test(key, bit));
        AtPrefix(k, t, p, Prefix(key, mask, bit));
        LongestStep(ops, p, |PathOf(k)|, value);
        if node.value != None {
          value := node.value;
        }
        if Test(key, bit) {
          node := node.right;
        } else {
          node := node.left;
        }
        if !Test(mask, bit) {
          AnswersTold(ops, key, mask, value);
          return;
        }
        PathStep(k, t, Test(key, bit), Prefix(key, mask, bit / 2), p);
        k, t := Into(k, t, Test(key, bit)), Child(t, Test(key, bit));
        bit := bit / 2;
      }
      BareGap(k, ops, p, Prefix(key, mask, bit));
      LongestRest(ops, p, |PathOf(k)|, value);
      AnswersTold(ops, key, mask, value);
    }
  }

  const INCS: seq<nat> :=
    [0x8000_0000, 0x4000_0000, 0x2000_0000, 0x1000_0000, 0x800_0000, 0x400_0000, 0x200_0000]

  const COUNTS: seq<nat> := [2, 4, 8, 16, 32, 64, 128]

  lemma FirstNil(ops: seq<Op>, op: Op)
    requires op.value == None && forall q :: First(ops, q) == None
    ensures forall q :: First(ops + [op], q) == None
  {
    forall q ensures First(ops + [op], q) == None {
      FirstAdd(ops, op, q);
    }
  }

  /** The multiples of a divisor of the word size reach it exactly. */
  lemma WrapsToZero(n: nat, inc: nat, total: nat)
    requires n < total && total * inc == 0x1_0000_0000
    ensures (n + 1) * inc <= 0x1_0000_0000
    ensures (n + 1) * inc == 0x1_0000_0000 <==> n + 1 == total
  {
    assert total * inc - (n + 1) * inc == (total - n - 1) * inc;
    assert inc != 0;
    assert n + 1 < total ==> (total - n - 1) * inc >= inc;
  }

  /** Makes the nodes of one depth, by insertions of nil under every key of that depth. */
  method Fill(tree: RadixTree, mask: uint32, inc: nat, ghost total: nat)
    requires tree.Valid() && total * inc == 0x1_0000_0000 && total > 0
    requires forall q :: First(tree.ops, q) == None
    modifies tree, tree.nodes
    ensures tree.Valid() && fresh(tree.nodes - old(tree.nodes))
    ensures forall q :: First(tree.ops, q) == None
  {
    var key: uint32 := 0;
    ghost var n: nat := 0;
    while true
      invariant tree.Valid() && fresh(tree.nodes - old(tree.nodes))
      invariant forall q :: First(tree.ops, q) == None
      invariant n < total && key == n * inc
      decreases total - n
    {
      FirstNil(tree.ops, Op(key, mask, None));
      var _ := tree.Insert32(key, mask, None);
      WrapsToZero(n, inc, total);
      key := (key + inc) % 0x1_0000_0000;
      n := n + 1;
      if key == 0 {
        break;
      }
    }
  }

  /** Preallocated nodes change no answer: the tree still holds no value at all. */
  method NewTree(preallocate: int) returns (tree: RadixTree)
    ensures tree.Valid() && fresh(tree) && fresh(tree.nodes)
    ensures Silent(tree.ops)
  {
    tree := new RadixTree.Empty();
    if preallocate == 0 {
      return;
    }
    var left := if preallocate > 6 || preallocate < 0 then 6 else preallocate;
    var mask: uint32 := 0;
    var inc := START_BIT;
    ghost var step: nat := 0;
    while left > 0
      invariant tree.Valid() && fresh(tree) && fresh(tree.nodes)
      invariant forall q :: First(tree.ops, q) == None
      invariant 0 <= left && step + left <= 6 && inc == INCS[step]
    {
      mask := mask / 2 + START_BIT;
      Fill(tree, mask, inc, COUNTS[step]);
      inc := inc / 2;
      step := step + 1;
      left := left - 1;
    }
  }

  ghost predicate Silent(pre: seq<Op>) {
    forall q :: First(pre, q) == None
  }

  /** A run that follows preallocation leaves at every prefix what it would leave on its own. */
  lemma {:induction false} FirstAfterNil(pre: seq<Op>, ops: seq<Op>, q: seq<bool>)
    requires Silent(pre)
    ensures First(pre + ops, q) == First(ops, q)
    decreases |ops|
  {
    if ops == [] {
      assert pre + ops == pre;
    } else {
      var front, op := ops[..|ops| - 1], ops[|ops| - 1];
      FirstAfterNil(pre, front, q);
      assert pre + ops == pre + front + [op] && ops == front + [op];
      FirstAdd(pre + front, op, q);
      FirstAdd(front, op, q);
    }
  }

  lemma LongestAfterNil(pre: seq<Op>, ops: seq<Op>, p: seq<bool>, d: nat, r: Option<int>)
    requires Silent(pre) && d <= |p| + 1
    ensures Longest(pre + ops, p, d, r) <==> Longest(ops, p, d, r)
  {
    hide First;
    forall q ensures First(pre + ops, q) == First(ops, q) {
      FirstAfterNil(pre, ops, q);
    }
    if r.Some? && Longest(pre + ops, p, d, r) {
      var n: nat :| n < d && First(pre + ops, p[..n]) == r && Bare(pre + ops, p, n + 1, d);
      assert Bare(ops, p, n + 1, d);
    }
    if r.Some? && Longest(ops, p, d, r) {
      var n: nat :| n < d && First(ops, p[..n]) == r && Bare(ops, p, n + 1, d);
      assert Bare(pre + ops, p, n + 1, d);
    }
  }

  /** So every lookup after it answers as if there had been no preallocation. */
  lemma AnswersAfterNil(pre: seq<Op>, ops: seq<Op>, key: uint32, mask: uint32, r: Option<int>)
    requires Silent(pre)
    ensures Answers(pre + ops, key, mask, r) <==> Answers(ops, key, mask, r)
  {
    hide Silent, Longest, Answers, Prefix;
    var p := Prefix(key, mask, START_BIT);
    LongestAfterNil(pre, ops, p, |p| + 1, r);
    AnswersTold(pre + ops, key, mask, r);
    AnswersTold(ops, key, mask, r);
  }
}
