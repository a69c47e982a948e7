/**
  * `GetAbsoluteName` of `g53/domaintree/nodechain.go`, and the lookups and removals of
  * `cement/domaintree/domaintree.go` as operations on a map.
  */
module TreeLookup {
  import opened Octets
  import opened Names
  import opened NameOrder
  import opened NameOps
  import opened Trees
  import opened RedBlack
  import opened Zones
  import opened ZoneContents
  import opened TreeSearch
  import opened TreeInsert
  import opened TreeMap
  import opened TreeRemove

  // ----- The full name of a node -----

  /** The names of the nodes that hold the level of the hole, from the bottom up. */
  ghost function WayNames(k: Way): seq<Name> {
    match k
    case Top => []
    case InD(e, _, _, _, up) => [e.name] + WayNames(up)
    case _ => WayNames(k.up)
  }

  lemma {:induction false} WayNamesValid(k: Way, t: Tree)
    requires Zone(All(k, t))
    ensures forall n :: n in WayNames(k) ==> Valid(n)
    decreases k
  {
    hide Zone, Valid, Level;
    if !k.Top? {
      WayNamesValid(k.up, Fill(k, t));
      if k.InD? {
        ZoneLevel(k, t);
      }
    }
  }

  lemma {:induction false} JoinedFront(n: Name, ns: seq<Name>)
    requires Valid(n) && forall m :: m in ns ==> Valid(m)
    ensures Joined([n] + ns) == Labels(n) + Joined(ns)
    decreases |ns|
  {
    hide Valid, Joined, Body;
    var all := [n] + ns;
    if ns == [] {
      JoinedOne(n, all);
      assert all[..1] == all;
      JoinedNone();
    } else {
      var init := ns[..|ns| - 1];
      JoinedFront(n, init);
      JoinedNext(all, |ns|);
      JoinedNext(ns, |ns| - 1);
      assert all[..|ns|] == [n] + init && all[..|ns| + 1] == all && ns[..|ns|] == ns;
    }
  }

  lemma JoinedNone()
    ensures Joined([]) == []
  {
  }

  lemma {:induction false} JoinedWay(k: Way)
    requires forall n :: n in WayNames(k) ==> Valid(n)
    ensures Joined(WayNames(k)) == Suffix(k)
    decreases k
  {
    hide Valid;
    match k {
      case Top =>
      case InD(e, _, _, _, up) =>
        assert e.name in WayNames(k);
        assert forall n :: n in WayNames(up) ==> n in WayNames(k);
        JoinedWay(up);
        JoinedFront(e.name, WayNames(up));
      case _ =>
        JoinedWay(k.up);
    }
  }

  lemma {:induction false} ChainSize(k: Way)
    ensures |Chain(k)| == |WayNames(k)|
    decreases k
  {
    if !k.Top? {
      ChainSize(k.up);
    }
  }

  lemma {:induction false} ChainName(m: Cells, k: Way, hole: Node?, root: Node?, j: nat)
    requires Around(m, k, hole, root) && j < |Chain(k)|
    ensures |Chain(k)| == |WayNames(k)| && Chain(k)[j] in m && m[Chain(k)[j]].name == WayNames(k)[|Chain(k)| - 1 - j]
    decreases k
  {
    ChainSize(k);
    if k.InD? {
      if j < |Chain(k.up)| {
        ChainName(m, k.up, k.e.nd, root, j);
      }
    } else {
      ChainName(m, k.up, k.e.nd, root, j);
    }
  }

  /** What the chain to a node spells. */
  lemma ChainSpells(tree: DomainTree, k: Way, t: Tree, path: seq<Node>)
    requires TreeOk(tree) && Conf(tree.Now(), k, t) && All(k, t) == tree.shape && t.N? && path == Chain(k) + [t.e.nd]
    ensures forall j :: 0 <= j < |path| ==> path[j] in tree.nodes && Valid(path[j].name)
    ensures var names := [t.e.name] + WayNames(k);
      && |names| == |path| && (forall n :: n in names ==> Valid(n)) && Joined(names) == NameOf(t.e) + Suffix(k)
      && (forall j :: 0 <= j < |path| ==> names[j] == path[|path| - 1 - j].name) && FitsName(Joined(names))
  {
    hide *;
    ConfCell(tree.Now(), k, t);
    ConfParts(tree.Now(), k, t);
    ChainSize(k);
    SpellFacts(tree, k, t);
    WayNamesValid(k, t);
    JoinedWay(k);
    JoinedFront(t.e.name, WayNames(k));
    forall j | 0 <= j < |path|
      ensures path[j] in tree.nodes && path[j].name == ([t.e.name] + WayNames(k))[|path| - 1 - j]
    {
      SpellAt(tree, k, t, j);
    }
    var names := [t.e.name] + WayNames(k);
    forall j | 0 <= j < |path|
      ensures names[j] == path[|path| - 1 - j].name
    {
      SpellAt(tree, k, t, |path| - 1 - j);
    }
  }

  lemma SpellFacts(tree: DomainTree, k: Way, t: Tree)
    requires TreeOk(tree) && All(k, t) == tree.shape && t.N?
    ensures Zone(All(k, t)) && Valid(t.e.name) && NameOf(t.e) == Labels(t.e.name) && FitsName(NameOf(t.e) + Suffix(k))
  {
    hide Conf, Flat, Level;
    FullFits(k, t);
  }

  lemma SpellAt(tree: DomainTree, k: Way, t: Tree, j: nat)
    requires Conf(tree.Now(), k, t) && t.N? && j <= |Chain(k)| && |Chain(k)| == |WayNames(k)|
    ensures var path := Chain(k) + [t.e.nd];
      path[j] in tree.nodes && path[j].name == ([t.e.name] + WayNames(k))[|path| - 1 - j]
  {
    hide Conf, Around, Chain, WayNames;
    ConfCell(tree.Now(), k, t);
    ConfParts(tree.Now(), k, t);
    if j < |Chain(k)| {
      ChainName(tree.Now().cells, k, Ref(t), tree.Now().root, j);
    }
  }

  method GetAbsoluteName(nodePath: seq<Node>, ghost tree: DomainTree, ghost k: Way, ghost t: Tree) returns (name: Name)
    requires TreeOk(tree) && Conf(tree.Now(), k, t) && All(k, t) == tree.shape && t.N?
    requires nodePath == Chain(k) + [t.e.nd]
    ensures Valid(name) && Labels(name) == NameOf(t.e) + Suffix(k) && |nodePath| <= MAX_LABELS
  {
    hide *;
    ChainSpells(tree, k, t, nodePath);
    PathBound(tree, k, t);
    var nameCount := |nodePath|;
    if nameCount == 1 {
      assert ([t.e.name] + WayNames(k))[0] == nodePath[0].name;
      OneName(k, t);
      return nodePath[0].name;
    }
    var names: seq<Name> := [];
    for j := 0 to nameCount
      invariant |names| == j && forall i :: 0 <= i < j ==> names[i] == nodePath[nameCount - 1 - i].name
    {
      names := names + [nodePath[nameCount - 1 - j].name];
    }
    assert names == [t.e.name] + WayNames(k);
    assert names == [names[0]] + names[1..];
    var whole := Concat(names[0], names[1..]);
    name := whole.name;
  }

  lemma OneName(k: Way, t: Tree)
    requires t.N? && Valid(t.e.name) && WayNames(k) == []
    ensures Suffix(k) == [] && NameOf(t.e) + Suffix(k) == Labels(t.e.name)
  {
    JoinedWay(k);
    assert Labels(t.e.name) + [] == Labels(t.e.name);
  }

  // ----- Every node is stored once -----

  ghost predicate Among(xs: seq<Item>, ns: set<Node>) {
    forall i :: 0 <= i < |xs| ==> xs[i].nd in ns
  }

  lemma AmongJoin(a: seq<Item>, b: seq<Item>, c: seq<Item>, ns: set<Node>)
    requires Among(a, ns) && Among(b, ns) && Among(c, ns)
    ensures Among(a + b + c, ns) && Among(a + b, ns)
  {
  }

  lemma AmongMore(a: seq<Item>, ns: set<Node>, ns': set<Node>)
    requires Among(a, ns) && ns <= ns'
    ensures Among(a, ns')
  {
  }

  lemma {:induction false} FlatAmong(t: Tree, s: seq<Label>)
    ensures Among(Flat(t, s), Nodes(t))
    decreases t
  {
    hide Among;
    if t.N? {
      var n, ns := NameOf(t.e) + s, Nodes(t);
      FlatAmong(t.l, s);
      FlatAmong(t.r, s);
      AmongMore(Flat(t.l, s), Nodes(t.l), ns);
      AmongMore(Flat(t.r, s), Nodes(t.r), ns);
      OwnAmong(t, s);
      AmongJoin(Flat(t.l, s), FlatOne(Entry(t.e, t.d), s), Flat(t.r, s), ns);
    } else {
      NoneAmong({});
    }
  }

  lemma NoneAmong(ns: set<Node>)
    ensures Among([], ns)
  {
  }

  lemma OneAmong(x: Item, ns: set<Node>)
    requires x.nd in ns
    ensures Among([x], ns)
  {
  }

  lemma OwnAmong(t: Tree, s: seq<Label>)
    requires t.N?
    ensures Among(FlatOne(Entry(t.e, t.d), s), Nodes(t))
    decreases t, 0
  {
    hide Among, Flat;
    var n, ns := NameOf(t.e) + s, Nodes(t);
    FlatAmong(t.d, n);
    AmongMore(Flat(t.d, n), Nodes(t.d), ns);
    OneAmong(Item(n, t.e.nd, t.e.data), ns);
    NoneAmong(ns);
    AmongJoin([Item(n, t.e.nd, t.e.data)], Flat(t.d, n), [], ns);
  }

  lemma {:induction false} AroundAmong(k: Way)
    ensures Among(FlatBefore(k), WayNodes(k)) && Among(FlatAfter(k), WayNodes(k))
    decreases k
  {
    hide Among, Flat;
    var ns := WayNodes(k);
    if k.Top? {
      NoneAmong(ns);
    } else {
      var s := Suffix(k.up);
      AroundAmong(k.up);
      AmongMore(FlatBefore(k.up), WayNodes(k.up), ns);
      AmongMore(FlatAfter(k.up), WayNodes(k.up), ns);
      OneAmong(Item(NameOf(k.e) + s, k.e.nd, k.e.data), ns);
      match k {
        case InL(e, c, r, d, up) =>
          SideAmong(e, c, r, d, s, ns);
          AmongJoin(FlatOne(Entry(e, d), s), Flat(r, s), FlatAfter(up), ns);
        case InR(e, c, l, d, up) =>
          SideAmong(e, c, l, d, s, ns);
          AmongJoin(FlatBefore(up), Flat(l, s), FlatOne(Entry(e, d), s), ns);
        case InD(e, c, l, r, up) =>
          FlatAmong(l, s);
          FlatAmong(r, s);
          AmongMore(Flat(l, s), Nodes(l), ns);
          AmongMore(Flat(r, s), Nodes(r), ns);
          AmongJoin(FlatBefore(up), Flat(l, s), [Item(NameOf(e) + s, e.nd, e.data)], ns);
          AmongJoin(Flat(r, s), FlatAfter(up), FlatAfter(up), ns);
      }
    }
  }

  lemma SideAmong(e: Info, c: Color, t: Tree, d: Tree, s: seq<Label>, ns: set<Node>)
    requires e.nd in ns && Nodes(t) <= ns && Nodes(d) <= ns
    ensures Among(FlatOne(Entry(e, d), s), ns) && Among(Flat(t, s), ns)
  {
    hide Among, Flat;
    var x := N(e, c, Leaf, Leaf, d);
    assert Nodes(Leaf) == {};
    OwnAmong(x, s);
    AmongMore(FlatOne(Entry(e, d), s), Nodes(x), ns);
    FlatAmong(t, s);
    AmongMore(Flat(t, s), Nodes(t), ns);
  }

  /** The only item of a node is the one at its place. */
  lemma ItemOnce(h: Heap, k: Way, t: Tree, i: nat)
    requires Conf(h, k, t) && t.N? && i < |Flat(All(k, t), [])| && Flat(All(k, t), [])[i].nd == t.e.nd
    ensures i == |ItemsBefore(k, t)| && Flat(All(k, t), [])[i] == OwnItem(k, t)
  {
    var s, ns := Suffix(k), WayNodes(k) + Nodes(t.l) + Nodes(t.d) + Nodes(t.r);
    assert t.e.nd !in ns;
    FlatAt(k, t);
    hide Flat, Among, WayNodes, Nodes;
    AroundAmong(k);
    FlatAmong(t.l, s);
    FlatAmong(t.d, NameOf(t.e) + s);
    FlatAmong(t.r, s);
    AmongMore(FlatBefore(k), WayNodes(k), ns);
    AmongMore(FlatAfter(k), WayNodes(k), ns);
    AmongMore(Flat(t.l, s), Nodes(t.l), ns);
    AmongMore(Flat(t.d, NameOf(t.e) + s), Nodes(t.d), ns);
    AmongMore(Flat(t.r, s), Nodes(t.r), ns);
    AmongJoin(FlatBefore(k), Flat(t.l, s), [], ns);
  }

  // ----- Lookups in the map -----

  /** The name is in the map exactly when a shown node has it. */
  lemma MissingKey(tree: DomainTree, f: seq<Label>)
    requires Missing(Flat(tree.shape, []), f, false)
    ensures Folded(f) !in Map(tree)
  {
    hide Contents, AsMap, Flat, SameLabels;
    var xs := Flat(tree.shape, []);
    AsMapKeys(Contents(xs), Folded(f));
    if i :| 0 <= i < |Contents(xs)| && Contents(xs)[i].key == Folded(f) {
      var j := ContentsKeys(xs, i);
      SameFolded(xs[j].full, f);
    }
  }

  /** An item with data is what the map holds under its name. */
  lemma HeldKey(tree: DomainTree, i: nat)
    requires TreeOk(tree) && i < |Flat(tree.shape, [])| && Flat(tree.shape, [])[i].data.Data?
    ensures var x := Flat(tree.shape, [])[i]; Folded(x.full) in Map(tree) && Map(tree)[Folded(x.full)] == x.data.value
  {
    hide Contents, AsMap, Flat, Conf, Zone, Distinct;
    var xs := Flat(tree.shape, []);
    var j := ContentsHolds(xs, i);
    ZoneSorted(tree.shape);
    AsMapValue(Contents(xs), j);
  }

  lemma KeyHeld(tree: DomainTree, key: seq<Label>) returns (i: nat)
    requires key in Map(tree)
    ensures i < |Flat(tree.shape, [])| && Flat(tree.shape, [])[i].data.Data?
    ensures Folded(Flat(tree.shape, [])[i].full) == key
  {
    hide Contents, AsMap, Flat;
    var xs := Flat(tree.shape, []);
    AsMapKeys(Contents(xs), key);
    var j :| 0 <= j < |Contents(xs)| && Contents(xs)[j].key == key;
    i := ContentsKeys(xs, j);
  }

  lemma WithinFolded(f: seq<Label>, x: seq<Label>)
    ensures Within(Folded(f), Folded(x)) == Within(f, x)
  {
    if |f| > |x| {
      forall j | 0 <= j < |x|
        ensures SameFold(FromRight(Folded(f), j), FromRight(Folded(x), j)) == SameFold(FromRight(f, j), FromRight(x, j))
      {
        var a, b := FromRight(f, j), FromRight(x, j);
        LowerTwice(a);
        LowerTwice(b);
        SameFoldLower(a, b);
        SameFoldLower(LowerAll(a), LowerAll(b));
      }
    }
  }

  lemma LowerTwice(a: bytes)
    ensures LowerAll(LowerAll(a)) == LowerAll(a)
  {
  }

  datatype Answer = Exact(value: int) | Encloser(name: Name, value: int) | Nothing

  /** The answer of a map: the value of the name, or of its closest encloser, or nothing. */
  ghost predicate Answers(m: map<seq<Label>, int>, f: seq<Label>, a: Answer) {
    match a
    case Exact(v) => f in m && m[f] == v
    case Encloser(g, v) =>
      && f !in m && Valid(g) && Within(f, Folded(Labels(g))) && Folded(Labels(g)) in m && m[Folded(Labels(g))] == v
      && forall key :: key in m && Within(f, key) ==> |key| <= |Labels(g)|
    case Nothing => f !in m && forall key :: key in m ==> !Within(f, key)
  }

  lemma AnswerExact(tree: DomainTree, k: Way, t: Tree, f: seq<Label>)
    requires TreeOk(tree) && All(k, t) == tree.shape && t.N? && t.e.data.Data? && SameLabels(NameOf(t.e) + Suffix(k), f)
    ensures Answers(Map(tree), Folded(f), Exact(t.e.data.value))
  {
    hide TreeOk, Flat, All, Map;
    FlatAt(k, t);
    HeldKey(tree, |ItemsBefore(k, t)|);
    SameFolded(NameOf(t.e) + Suffix(k), f);
  }

  lemma AnswerNothing(tree: DomainTree, f: seq<Label>)
    requires Finds(Flat(tree.shape, []), f, false, NO_HIT, Find(tree.shape, f, false, NO_HIT))
    requires Find(tree.shape, f, false, NO_HIT).result == NotFound
    ensures Answers(Map(tree), Folded(f), Nothing)
  {
    hide Flat, Map, Within, SameLabels, Find;
    MissingKey(tree, f);
    forall key | key in Map(tree)
      ensures !Within(Folded(f), key)
    {
      var i := KeyHeld(tree, key);
      WithinFolded(f, Flat(tree.shape, [])[i].full);
    }
  }

  /** The node of a partial match, at its place in the tree, has the closest enclosing name. */
  lemma AnswerEncloser(tree: DomainTree, k: Way, t: Tree, f: seq<Label>, g: Name)
    requires TreeOk(tree) && Conf(tree.Now(), k, t) && All(k, t) == tree.shape && t.N? && t.e.data.Data?
    requires Find(tree.shape, f, false, NO_HIT).result == PartialMatch
    requires Find(tree.shape, f, false, NO_HIT).target == t.e.nd
    requires Valid(g) && Labels(g) == NameOf(t.e) + Suffix(k)
    ensures Answers(Map(tree), Folded(f), Encloser(g, t.e.data.value))
  {
    hide Flat, Map, Within, SameLabels, Find, Zone, All, Conf;
    var xs := Flat(tree.shape, []);
    FindZone(tree.shape, f, false);
    var i :| 0 <= i < |xs| && xs[i].nd == t.e.nd && Closest(xs, f, false, i);
    ItemOnce(tree.Now(), k, t, i);
    HeldKey(tree, i);
    MissingKey(tree, f);
    WithinFolded(f, xs[i].full);
    forall key | key in Map(tree) && Within(Folded(f), key)
      ensures |key| <= |Labels(g)|
    {
      var j := KeyHeld(tree, key);
      WithinFolded(f, xs[j].full);
    }
  }

  /** The place of the deepest shown node above the hole; the chain leads through it once. */
  lemma {:induction false} ShownPlace(h: Heap, k: Way, t: Tree, show: bool) returns (k': Way, t': Tree)
    requires Conf(h, k, t) && ShownAbove(k, show) != null
    ensures Conf(h, k', t') && All(k', t') == All(k, t) && t'.N? && t'.e.nd == ShownAbove(k, show)
    ensures Shown(show, t'.e.data)
    ensures |Chain(k')| < |Chain(k)| && Chain(k)[..|Chain(k')| + 1] == Chain(k') + [t'.e.nd]
    ensures forall i :: |Chain(k')| < i < |Chain(k)| ==> Chain(k)[i] != t'.e.nd
    ensures t'.e.nd in WayNodes(k)
    decreases k
  {
    ConfParts(h, k, t);
    hide Conf, Shown;
    ConfUp(h, k, t);
    if k.InD? && Shown(show, k.e.data) {
      k', t' := k.up, Fill(k, t);
    } else {
      k', t' := ShownPlace(h, k.up, Fill(k, t), show);
    }
  }

  /** When nothing above the hole is shown, no node of the chain holds data. */
  lemma {:induction false} NoneHeld(h: Heap, k: Way, hole: Node?)
    requires Around(h.cells, k, hole, h.root) && ShownAbove(k, false) == null
    ensures forall i :: 0 <= i < |Chain(k)| ==> Chain(k)[i] in h.cells && h.cells[Chain(k)[i]].data == NoData
    decreases k
  {
    if !k.Top? {
      NoneHeld(h, k.up, k.e.nd);
    }
  }

  /** The lookup of a tree that shows only nodes with data. */
  method Search(tree: DomainTree, name: Name) returns (answer: Answer)
    requires TreeOk(tree) && Valid(name) && !tree.returnEmptyNode
    ensures Answers(Map(tree), Folded(Labels(name)), answer)
  {
    hide *;
    var node, ret, nodePath;
    ghost var k, t;
    node, ret, nodePath, k, t := SearchExt(tree, name);
    SearchFacts(tree, k, t, Labels(name));
    match ret {
      case ExactMatch =>
        NodeFacts(tree, k, t);
        AnswerExact(tree, k, t, Labels(name));
        answer := Exact(node.data.value);
      case PartialMatch =>
        ghost var k', t' := ShownPlace(tree.Now(), k, t, false);
        NodeFacts(tree, k', t');
        while nodePath != [] && nodePath[|nodePath| - 1] != node
          invariant |Chain(k')| < |nodePath| <= |Chain(k)| && nodePath == Chain(k)[..|nodePath|]
          decreases |nodePath|
        {
          nodePath := nodePath[..|nodePath| - 1];
        }
        var full := GetAbsoluteName(nodePath, tree, k', t');
        AnswerEncloser(tree, k', t', Labels(name), full);
        answer := Encloser(full, node.data.value);
      case NotFound =>
        while nodePath != []
          invariant |nodePath| <= |Chain(k)| && nodePath == Chain(k)[..|nodePath|]
          decreases |nodePath|
        {
          var parent := nodePath[|nodePath| - 1];
          assert parent == Chain(k)[|nodePath| - 1];
          assert parent.data == NoData;
          nodePath := nodePath[..|nodePath| - 1];
        }
        AnswerNothing(tree, Labels(name));
        answer := Nothing;
    }
  }

  lemma NodeFacts(tree: DomainTree, k: Way, t: Tree)
    requires TreeOk(tree) && Conf(tree.Now(), k, t) && t.N? && Shown(false, t.e.data)
    ensures t.e.nd in tree.nodes && t.e.nd.data == t.e.data && t.e.data.Data?
  {
    hide Conf;
    ConfCell(tree.Now(), k, t);
  }

  lemma SearchFacts(tree: DomainTree, k: Way, t: Tree, f: seq<Label>)
    requires TreeOk(tree) && Conf(tree.Now(), k, t)
    ensures Finds(Flat(tree.shape, []), f, false, NO_HIT, Find(tree.shape, f, false, NO_HIT))
    ensures Find(tree.shape, f, false, NO_HIT).result == PartialMatch ==>
      Find(tree.shape, f, false, NO_HIT).target != null
    ensures ShownAbove(k, false) == null ==>
      forall i :: 0 <= i < |Chain(k)| ==> Chain(k)[i] in tree.nodes && Chain(k)[i].data == NoData
  {
    ConfParts(tree.Now(), k, t);
    hide Conf, Flat, Zone, Find;
    FindZone(tree.shape, f, false);
    if ShownAbove(k, false) == null {
      NoneHeld(tree.Now(), k, Ref(t));
    }
  }

  /** A name is taken out of the map; the error is returned exactly for a name that is not in it. */
  method Delete(tree: DomainTree, name: Name) returns (removed: bool)
    requires TreeOk(tree) && Valid(name) && !tree.returnEmptyNode
    modifies tree`root, tree`nodeCount, tree`shape, tree.nodes
    ensures TreeOk(tree) && (removed <==> Folded(Labels(name)) in old(Map(tree)))
    ensures Map(tree) == old(Map(tree)) - {Folded(Labels(name))}
  {
    hide *;
    ExactMeansHeld(tree, Labels(name));
    removed := Remove(tree, name);
  }

  lemma ExactMeansHeld(tree: DomainTree, f: seq<Label>)
    requires TreeOk(tree)
    ensures Find(tree.shape, f, false, NO_HIT).result == ExactMatch <==> Folded(f) in Map(tree)
  {
    hide Flat, Zone, Find, Conf, Map, SameLabels;
    var xs, hit := Flat(tree.shape, []), Find(tree.shape, f, false, NO_HIT);
    FindZone(tree.shape, f, false);
    if hit.result == ExactMatch {
      var i :| 0 <= i < |xs| && SameLabels(xs[i].full, f) && Shown(false, xs[i].data) && xs[i].nd == hit.target;
      HeldKey(tree, i);
      SameFolded(xs[i].full, f);
    } else {
      MissingKey(tree, f);
    }
  }
}
