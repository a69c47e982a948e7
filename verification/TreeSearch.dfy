/** `SearchExt` of `g53/domaintree/domaintree.go`: the node of a name, or of its closest encloser. */
module TreeSearch {
  import opened Octets
  import opened Names
  import opened NameOrder
  import opened NameOps
  import opened Trees
  import opened RedBlack
  import opened Zones

  datatype SearchResult = ExactMatch | PartialMatch | NotFound

  datatype Hit = Hit(target: Node?, result: SearchResult, path: seq<Node>)

  const NO_HIT := Hit(null, NotFound, [])

  /** The names share their rightmost label. */
  ghost predicate Meets(q: seq<Label>, x: seq<Label>) {
    q != [] && x != [] && SameFold(FromRight(q, 0), FromRight(x, 0))
  }

  /** `q` is a proper subdomain of `x`. */
  ghost predicate Within(q: seq<Label>, x: seq<Label>) {
    |q| > |x| && Agree(q, x, |x|)
  }

  predicate Shown(show: bool, data: Data) {
    show || data.Data?
  }

  /** The search in a tree of shape `t`, `best` being what was found above. */
  ghost function Find(t: Tree, q: seq<Label>, show: bool, best: Hit): Hit
    decreases t
  {
    match t
    case Leaf => best
    case N(e, _, l, r, d) =>
      var x := NameOf(e);
      if SameLabels(q, x) then
        if Shown(show, e.data) then Hit(e.nd, ExactMatch, best.path + [e.nd]) else best
      else if !Meets(q, x) && x != [] then
        if NameLess(q, x) then Find(l, q, show, best) else Find(r, q, show, best)
      else if Within(q, x) then
        Find(d, q[..|q| - |x|], show, Deeper(e, show, best))
      else best
  }

  /** One step of the search. */
  lemma FindStep(t: Tree, q: seq<Label>, show: bool, best: Hit)
    requires t.N?
    ensures var x := NameOf(t.e);
      Find(t, q, show, best) ==
      if SameLabels(q, x) then
        if Shown(show, t.e.data) then Hit(t.e.nd, ExactMatch, best.path + [t.e.nd]) else best
      else if !Meets(q, x) && x != [] then
        if NameLess(q, x) then Find(t.l, q, show, best) else Find(t.r, q, show, best)
      else if Within(q, x) then
        Find(t.d, q[..|q| - |x|], show, Deeper(t.e, show, best))
      else best
  {
  }

  function Deeper(e: Info, show: bool, best: Hit): Hit {
    if Shown(show, e.data) then Hit(e.nd, PartialMatch, best.path + [e.nd]) else best.(path := best.path + [e.nd])
  }

  // ----- What a search finds -----

  /**
    * Of the given items, the one with the name `f`, or else the closest encloser, or else nothing better
    * than `best`.
    */
  ghost predicate Finds(xs: seq<Item>, f: seq<Label>, show: bool, best: Hit, hit: Hit) {
    if hit.result == ExactMatch then
      exists i :: 0 <= i < |xs| && SameLabels(xs[i].full, f) && Shown(show, xs[i].data) && xs[i].nd == hit.target
    else
      && Missing(xs, f, show)
      && ((hit.target == best.target && hit.result == best.result && NoneAround(xs, f, show))
          || (&& hit.result == PartialMatch
              && exists i :: 0 <= i < |xs| && xs[i].nd == hit.target && Closest(xs, f, show, i)))
  }

  ghost predicate Missing(xs: seq<Item>, f: seq<Label>, show: bool) {
    forall i :: 0 <= i < |xs| && Shown(show, xs[i].data) ==> !SameLabels(xs[i].full, f)
  }

  ghost predicate NoneAround(xs: seq<Item>, f: seq<Label>, show: bool) {
    forall i :: 0 <= i < |xs| && Shown(show, xs[i].data) ==> !Within(f, xs[i].full)
  }

  ghost predicate Closest(xs: seq<Item>, f: seq<Label>, show: bool, i: nat) {
    && i < |xs| && Shown(show, xs[i].data) && Within(f, xs[i].full)
    && forall j :: 0 <= j < |xs| && Shown(show, xs[j].data) && Within(f, xs[j].full) ==> |xs[j].full| <= |xs[i].full|
  }

  /** Items that are neither `f` nor above it. */
  ghost predicate Aside(xs: seq<Item>, f: seq<Label>) {
    forall i :: 0 <= i < |xs| ==> !SameLabels(xs[i].full, f) && !Within(f, xs[i].full)
  }

  lemma FindsAside(a: seq<Item>, xs: seq<Item>, b: seq<Item>, f: seq<Label>, show: bool, best: Hit, hit: Hit)
    requires Finds(xs, f, show, best, hit) && Aside(a, f) && Aside(b, f)
    ensures Finds(a + xs + b, f, show, best, hit)
  {
    hide SameLabels, Within;
    var all := a + xs + b;
    assert forall i :: 0 <= i < |xs| ==> all[|a| + i] == xs[i];
    if hit.result == ExactMatch {
      var i :| 0 <= i < |xs| && SameLabels(xs[i].full, f) && Shown(show, xs[i].data) && xs[i].nd == hit.target;
      assert all[|a| + i] == xs[i];
    } else if i :| 0 <= i < |xs| && xs[i].nd == hit.target && Closest(xs, f, show, i) && hit.result == PartialMatch {
      assert all[|a| + i] == xs[i];
      assert Closest(all, f, show, |a| + i);
    }
  }

  lemma FindsFold(xs: seq<Item>, f: seq<Label>, g: seq<Label>, show: bool, best: Hit, hit: Hit)
    requires Finds(xs, f, show, best, hit) && SameLabels(f, g)
    ensures Finds(xs, g, show, best, hit)
  {
    forall x: seq<Label>
      ensures SameLabels(x, f) == SameLabels(x, g) && Within(f, x) == Within(g, x)
    {
      FoldEither(x, f, g);
    }
    hide SameLabels, Within;
    if hit.result != ExactMatch {
      if i :| 0 <= i < |xs| && xs[i].nd == hit.target && Closest(xs, f, show, i) && hit.result == PartialMatch {
        assert Closest(xs, g, show, i);
      }
    }
  }

  lemma FoldEither(x: seq<Label>, f: seq<Label>, g: seq<Label>)
    requires SameLabels(f, g)
    ensures SameLabels(x, f) == SameLabels(x, g) && Within(f, x) == Within(g, x)
  {
    if |x| < |f| {
      forall j | 0 <= j < |x|
        ensures SameFold(FromRight(f, j), FromRight(x, j)) == SameFold(FromRight(g, j), FromRight(x, j))
      {
        assert SameFold(f[|f| - 1 - j], g[|f| - 1 - j]);
      }
    }
    if |x| == |f| {
      forall i | 0 <= i < |x|
        ensures SameFold(x[i], f[i]) == SameFold(x[i], g[i])
      {
        assert SameFold(f[i], g[i]);
      }
    }
  }

  lemma UnderShares(x: seq<Label>, q: seq<Label>, s: seq<Label>, key: bytes)
    requires Under(x, s, key) && (SameLabels(x, q + s) || Within(q + s, x))
    ensures q != [] && SameFold(FromRight(q, 0), key)
  {
    var f := q + s;
    assert FromRight(f, |s|) == FromRight(q, 0);
    if SameLabels(x, f) {
      assert SameFold(x[|q| - 1], f[|q| - 1]);
    } else {
      assert SameFold(FromRight(f, |s|), FromRight(x, |s|));
    }
  }

  lemma UnderAside(x: seq<Label>, q: seq<Label>, s: seq<Label>, key: bytes)
    requires Under(x, s, key) && (q == [] || !SameFold(FromRight(q, 0), key))
    ensures !SameLabels(x, q + s) && !Within(q + s, x)
  {
    if SameLabels(x, q + s) || Within(q + s, x) {
      UnderShares(x, q, s, key);
    }
  }

  lemma EndsAside(y: seq<Label>, x: seq<Label>, q: seq<Label>, s: seq<Label>)
    requires EndsWith(y, x + s) && !SameLabels(q, x) && !Within(q, x)
    ensures !SameLabels(y, q + s) && !Within(q + s, y)
  {
    var f := q + s;
    if SameLabels(y, f) || Within(f, y) {
      assert |q| >= |x|;
      forall j | 0 <= j < |x|
        ensures SameFold(FromRight(q, j), FromRight(x, j))
      {
        var i := j + |s|;
        assert FromRight(f, i) == FromRight(q, j);
        assert y[|y| - 1 - i] == y[|y| - |x + s|..][|x| - 1 - j] == (x + s)[|x| - 1 - j];
        assert SameFold(FromRight(y, i), FromRight(f, i)) || SameFold(FromRight(f, i), FromRight(y, i));
      }
      if |q| == |x| {
        forall i | 0 <= i < |q|
          ensures SameFold(q[i], x[i])
        {
          assert SameFold(FromRight(q, |q| - 1 - i), FromRight(x, |q| - 1 - i));
        }
      }
      assert false;
    }
  }

  lemma LevelAside(t: Tree, q: seq<Label>, s: seq<Label>)
    requires Good(t, s)
    requires forall i :: 0 <= i < |Entries(t)| ==> q == [] || !SameFold(FromRight(q, 0), Key(Entries(t)[i].e))
    ensures Aside(Flat(t, s), q + s)
  {
    hide Good, Flat, Entries, Under, SameLabels, Within, SameFold, Key;
    forall i | 0 <= i < |Flat(t, s)|
      ensures !SameLabels(Flat(t, s)[i].full, q + s) && !Within(q + s, Flat(t, s)[i].full)
    {
      var j := FlatUnder(t, s, i);
      UnderAside(Flat(t, s)[i].full, q, s, Key(Entries(t)[j].e));
    }
  }

  /** All that a node stands for ends with its own labels. */
  lemma OwnEnds(e: Info, d: Tree, s: seq<Label>, i: nat)
    requires Good(d, NameOf(e) + s) && i < |FlatOne(Entry(e, d), s)|
    ensures EndsWith(FlatOne(Entry(e, d), s)[i].full, NameOf(e) + s)
    ensures i > 0 ==> |FlatOne(Entry(e, d), s)[i].full| > |NameOf(e) + s|
  {
    hide Good, Flat, Entries;
    if i > 0 {
      var j := FlatUnder(d, NameOf(e) + s, i - 1);
    }
  }

  lemma OwnAside(e: Info, d: Tree, q: seq<Label>, s: seq<Label>)
    requires Good(d, NameOf(e) + s) && !SameLabels(q, NameOf(e)) && !Within(q, NameOf(e))
    ensures Aside(FlatOne(Entry(e, d), s), q + s)
  {
    hide Good, Flat, SameLabels, Within, EndsWith;
    var own := FlatOne(Entry(e, d), s);
    forall i | 0 <= i < |own|
      ensures !SameLabels(own[i].full, q + s) && !Within(q + s, own[i].full)
    {
      OwnEnds(e, d, s, i);
      EndsAside(own[i].full, NameOf(e), q, s);
    }
  }

  lemma FallsMeets(q: seq<Label>, x: seq<Label>, k: nat)
    requires FallsAt(q, x, k) && k > 0
    ensures Meets(q, x)
  {
    assert SameFold(FromRight(q, 0), FromRight(x, 0));
  }

  /** Names with different last labels are ordered by them. */
  lemma LastLess(q: seq<Label>, x: seq<Label>)
    requires q != [] && x != [] && !Meets(q, x) && NameLess(q, x)
    ensures LabelLess(FromRight(q, 0), FromRight(x, 0))
  {
    var k: nat :| FallsAt(q, x, k);
    if k > 0 {
      FallsMeets(q, x, k);
    }
  }

  /** A label beside a key is not the key. */
  lemma BesideKey(a: bytes, b: bytes)
    requires LabelLess(a, b) || LabelLess(b, a)
    ensures !SameFold(a, b)
  {
    if SameFold(a, b) {
      LabelLessIrreflexive(a, b);
      LabelLessIrreflexive(b, a);
    }
  }

  lemma RightAside(t: Tree, q: seq<Label>, s: seq<Label>)
    requires t.N? && Good(t, s) && Sorted(Entries(t)) && NameOf(t.e) != []
    requires if Meets(q, NameOf(t.e)) then true else NameLess(q, NameOf(t.e))
    ensures Aside(Flat(t.r, s), q + s)
  {
    hide Sorted, Entries, LabelLess, NameLess, SameFold, GoodNode, Aside;
    SortedParts(t);
    var es, x := Entries(t.r), NameOf(t.e);
    forall i | 0 <= i < |es|
      ensures q == [] || !SameFold(FromRight(q, 0), Key(es[i].e))
    {
      if q != [] {
        if Meets(q, x) {
          SameFoldEither(FromRight(q, 0), Key(t.e));
          LabelLessFold(Key(t.e), FromRight(q, 0), Key(es[i].e), Key(es[i].e));
        } else {
          LastLess(q, x);
          LabelLessTrans(FromRight(q, 0), Key(t.e), Key(es[i].e));
        }
        BesideKey(FromRight(q, 0), Key(es[i].e));
      }
    }
    LevelAside(t.r, q, s);
  }

  lemma LeftAside(t: Tree, q: seq<Label>, s: seq<Label>)
    requires t.N? && Good(t, s) && Sorted(Entries(t)) && NameOf(t.e) != []
    requires if Meets(q, NameOf(t.e)) then true else NameLess(NameOf(t.e), q)
    ensures Aside(Flat(t.l, s), q + s)
  {
    hide Sorted, Entries, LabelLess, NameLess, SameFold, GoodNode, Aside;
    SortedParts(t);
    var es, x := Entries(t.l), NameOf(t.e);
    forall i | 0 <= i < |es|
      ensures q == [] || !SameFold(FromRight(q, 0), Key(es[i].e))
    {
      if q != [] {
        if Meets(q, x) {
          SameFoldEither(FromRight(q, 0), Key(t.e));
          LabelLessFold(Key(es[i].e), Key(es[i].e), Key(t.e), FromRight(q, 0));
        } else {
          MeetsEither(q, x);
          LastLess(x, q);
          LabelLessTrans(Key(es[i].e), Key(t.e), FromRight(q, 0));
        }
        BesideKey(FromRight(q, 0), Key(es[i].e));
      }
    }
    LevelAside(t.l, q, s);
  }

  lemma SameFoldEither(a: bytes, b: bytes)
    ensures SameFold(a, b) == SameFold(b, a) && SameFold(a, a)
  {
  }

  lemma MeetsEither(q: seq<Label>, x: seq<Label>)
    ensures Meets(q, x) == Meets(x, q)
  {
    if q != [] && x != [] {
      SameFoldEither(FromRight(q, 0), FromRight(x, 0));
    }
  }

  lemma AsideNothing(xs: seq<Item>, f: seq<Label>, show: bool, best: Hit)
    requires Aside(xs, f) && best.result != ExactMatch
    ensures Finds(xs, f, show, best, best)
  {
  }

  lemma AsideJoin(a: seq<Item>, b: seq<Item>, f: seq<Label>)
    requires Aside(a, f) && Aside(b, f)
    ensures Aside(a + b, f)
  {
  }

  lemma SameConcat(q: seq<Label>, x: seq<Label>, s: seq<Label>)
    requires SameLabels(q, x)
    ensures SameLabels(q + s, x + s) && SameLabels(x + s, q + s)
  {
    assert forall i :: 0 <= i < |q + s| ==> SameFold((q + s)[i], (x + s)[i]);
  }

  /** The node with the sought name: it is the answer, or hides no other. */
  lemma FindsOwn(e: Info, d: Tree, q: seq<Label>, s: seq<Label>, show: bool, best: Hit)
    requires Good(d, NameOf(e) + s) && SameLabels(q, NameOf(e)) && best.result != ExactMatch
    ensures Finds(FlatOne(Entry(e, d), s), q + s, show, best,
                  if Shown(show, e.data) then Hit(e.nd, ExactMatch, best.path + [e.nd]) else best)
  {
    hide Good, Flat;
    var own := FlatOne(Entry(e, d), s);
    SameConcat(q, NameOf(e), s);
    assert own[0] == Item(NameOf(e) + s, e.nd, e.data);
    forall i | 0 < i < |own|
      ensures |own[i].full| > |q + s|
    {
      OwnEnds(e, d, s, i);
    }
  }

  lemma FindsDeeper(e: Info, d: Tree, q: seq<Label>, s: seq<Label>, show: bool, best: Hit, hit: Hit)
    requires Good(d, NameOf(e) + s) && Within(q, NameOf(e)) && best.result != ExactMatch
    requires Finds(Flat(d, NameOf(e) + s), q + s, show, Deeper(e, show, best), hit)
    ensures Finds(FlatOne(Entry(e, d), s), q + s, show, best, hit)
  {
    hide Good, Flat, SameLabels;
    var xs, own, f := Flat(d, NameOf(e) + s), FlatOne(Entry(e, d), s), q + s;
    WithinConcat(q, NameOf(e), s);
    assert own[0] == Item(NameOf(e) + s, e.nd, e.data);
    NotSame(NameOf(e) + s, f);
    forall i | 0 <= i < |xs|
      ensures own[i + 1] == xs[i] && |xs[i].full| > |NameOf(e) + s|
    {
      OwnEnds(e, d, s, i + 1);
    }
    hide Within;
    if hit.result == ExactMatch {
      var i :| 0 <= i < |xs| && SameLabels(xs[i].full, f) && Shown(show, xs[i].data) && xs[i].nd == hit.target;
      assert own[i + 1] == xs[i];
    } else if i :| 0 <= i < |xs| && xs[i].nd == hit.target && Closest(xs, f, show, i) && hit.result == PartialMatch {
      assert own[i + 1] == xs[i];
      assert Closest(own, f, show, i + 1);
    } else if Shown(show, e.data) {
      assert Closest(own, f, show, 0);
    }
  }

  lemma NotSame(x: seq<Label>, y: seq<Label>)
    requires |x| != |y|
    ensures !SameLabels(x, y)
  {
  }

  lemma WithinConcat(q: seq<Label>, x: seq<Label>, s: seq<Label>)
    requires Within(q, x)
    ensures Within(q + s, x + s)
  {
    var f, g := q + s, x + s;
    forall j | 0 <= j < |g|
      ensures SameFold(FromRight(f, j), FromRight(g, j))
    {
      if j >= |s| {
        assert FromRight(f, j) == FromRight(q, j - |s|) && FromRight(g, j) == FromRight(x, j - |s|);
      }
    }
  }

  /** A proper subdomain is what is left of it, put in front of the domain. */
  lemma WithinSplit(q: seq<Label>, x: seq<Label>, s: seq<Label>)
    requires Within(q, x)
    ensures SameLabels(q[..|q| - |x|] + (x + s), q + s)
  {
    var a, b := q[..|q| - |x|] + (x + s), q + s;
    forall i | 0 <= i < |a|
      ensures SameFold(a[i], b[i])
    {
      if |q| - |x| <= i < |q| {
        assert SameFold(FromRight(q, |q| - 1 - i), FromRight(x, |q| - 1 - i));
      }
    }
  }

  lemma JoinLeft(t: Tree, q: seq<Label>, s: seq<Label>, show: bool, best: Hit, hit: Hit)
    requires t.N? && Good(t, s) && Sorted(Entries(t)) && !Meets(q, NameOf(t.e)) && !SameLabels(q, NameOf(t.e))
    requires NameLess(q, NameOf(t.e)) && Finds(Flat(t.l, s), q + s, show, best, hit)
    ensures Finds(Flat(t, s), q + s, show, best, hit)
  {
    hide Finds, Sorted, Level, Entries, SameLabels, Aside, Meets, NameLess, Flat, FlatOne;
    var f, a, own, b := q + s, Flat(t.l, s), FlatOne(Entry(t.e, t.d), s), Flat(t.r, s);
    LevelGood(t.d, NameOf(t.e) + s);
    NotWithin(q, NameOf(t.e));
    OwnAside(t.e, t.d, q, s);
    RightAside(t, q, s);
    AsideJoin(own, b, f);
    NoAside(f);
    FindsAside([], a, own + b, f, show, best, hit);
    FlatParts(t, s);
  }

  lemma FlatParts(t: Tree, s: seq<Label>)
    requires t.N?
    ensures var a, own, b := Flat(t.l, s), FlatOne(Entry(t.e, t.d), s), Flat(t.r, s);
      Flat(t, s) == [] + a + (own + b) == a + own + b + [] == a + own + b
  {
    var a, own, b := Flat(t.l, s), FlatOne(Entry(t.e, t.d), s), Flat(t.r, s);
    assert [] + a + (own + b) == a + own + b;
  }

  lemma JoinRight(t: Tree, q: seq<Label>, s: seq<Label>, show: bool, best: Hit, hit: Hit)
    requires t.N? && Good(t, s) && Sorted(Entries(t)) && !Meets(q, NameOf(t.e)) && !SameLabels(q, NameOf(t.e))
    requires !NameLess(q, NameOf(t.e)) && Finds(Flat(t.r, s), q + s, show, best, hit)
    ensures Finds(Flat(t, s), q + s, show, best, hit)
  {
    hide Finds, Sorted, Level, Entries, SameLabels, Aside, Meets, NameLess, Flat, FlatOne;
    var f, a, own, b := q + s, Flat(t.l, s), FlatOne(Entry(t.e, t.d), s), Flat(t.r, s);
    LevelGood(t.d, NameOf(t.e) + s);
    NameTrichotomy(q, NameOf(t.e));
    NotWithin(q, NameOf(t.e));
    OwnAside(t.e, t.d, q, s);
    LeftAside(t, q, s);
    AsideJoin(a, own, f);
    NoAside(f);
    FindsAside(a + own, b, [], f, show, best, hit);
    FlatParts(t, s);
  }

  lemma JoinOwn(t: Tree, q: seq<Label>, s: seq<Label>, show: bool, best: Hit, hit: Hit)
    requires t.N? && Good(t, s) && Sorted(Entries(t)) && Meets(q, NameOf(t.e))
    requires Finds(FlatOne(Entry(t.e, t.d), s), q + s, show, best, hit)
    ensures Finds(Flat(t, s), q + s, show, best, hit)
  {
    hide Finds, Sorted, Level, Entries, Aside;
    LeftAside(t, q, s);
    RightAside(t, q, s);
    FindsAside(Flat(t.l, s), FlatOne(Entry(t.e, t.d), s), Flat(t.r, s), q + s, show, best, hit);
  }

  /** The search below a node, against the names that the node stands for. */
  lemma FindBelow(e: Info, d: Tree, q: seq<Label>, s: seq<Label>, show: bool, best: Hit)
    requires Good(d, NameOf(e) + s) && Sorted(Entries(d)) && Within(q, NameOf(e)) && best.result != ExactMatch
    ensures Finds(FlatOne(Entry(e, d), s), q + s, show, best,
      Find(d, q[..|q| - |NameOf(e)|], show, Deeper(e, show, best)))
    decreases d, 1
  {
    hide Finds, Sorted, Good, Entries, SameLabels, Within;
    var x := NameOf(e);
    assert |q| > |x| by { WithinLonger(q, x); }
    var q', deeper := q[..|q| - |x|], Deeper(e, show, best);
    FindLevel(d, q', x + s, show, deeper);
    WithinSplit(q, x, s);
    var hit := Find(d, q', show, deeper);
    FindsFold(Flat(d, x + s), q' + (x + s), q + s, show, deeper, hit);
    FindsDeeper(e, d, q, s, show, best, hit);
  }

  lemma WithinLonger(q: seq<Label>, x: seq<Label>)
    requires Within(q, x)
    ensures |q| > |x|
  {
  }

  /** The search of a level, against the names that the level stores. */
  lemma {:induction false} FindLevel(t: Tree, q: seq<Label>, s: seq<Label>, show: bool, best: Hit)
    requires Good(t, s) && Sorted(Entries(t)) && best.result != ExactMatch
    ensures Finds(Flat(t, s), q + s, show, best, Find(t, q, show, best))
    decreases t, 0
  {
    hide Finds, Sorted, Level, Entries, SameLabels, Flat, NameLess, Within, Meets, Aside;
    if t.Leaf? {
      LeafFlat(s);
      NothingFound(q + s, show, best);
    } else {
      var x, hit := NameOf(t.e), Find(t, q, show, best);
      LevelGood(t.d, x + s);
      SortedParts(t);
      if SameLabels(q, x) {
        SameMeets(q, x);
        FindsOwn(t.e, t.d, q, s, show, best);
        JoinOwn(t, q, s, show, best, hit);
      } else if !Meets(q, x) {
        if NameLess(q, x) {
          FindLevel(t.l, q, s, show, best);
          JoinLeft(t, q, s, show, best, hit);
        } else {
          FindLevel(t.r, q, s, show, best);
          JoinRight(t, q, s, show, best, hit);
        }
      } else {
        if Within(q, x) {
          FindBelow(t.e, t.d, q, s, show, best);
        } else {
          OwnAside(t.e, t.d, q, s);
          AsideNothing(FlatOne(Entry(t.e, t.d), s), q + s, show, best);
        }
        JoinOwn(t, q, s, show, best, hit);
      }
    }
  }

  lemma LeafFlat(s: seq<Label>)
    ensures Flat(Leaf, s) == []
  {
  }

  lemma FindLeaf(q: seq<Label>, show: bool, best: Hit)
    ensures Find(Leaf, q, show, best) == best
  {
  }

  lemma NothingFound(f: seq<Label>, show: bool, best: Hit)
    requires best.result != ExactMatch
    ensures Finds([], f, show, best, best)
  {
  }

  lemma NoAside(f: seq<Label>)
    ensures Aside([], f)
  {
  }

  lemma SameMeets(q: seq<Label>, x: seq<Label>)
    requires SameLabels(q, x) && x != []
    ensures Meets(q, x)
  {
  }

  lemma NotWithin(q: seq<Label>, x: seq<Label>)
    requires !Meets(q, x) && x != []
    ensures !Within(q, x)
  {
    if Within(q, x) {
      WithinMeets(q, x);
    }
  }

  lemma WithinMeets(q: seq<Label>, x: seq<Label>)
    requires Within(q, x) && x != []
    ensures Meets(q, x)
  {
    assert SameFold(FromRight(q, 0), FromRight(x, 0));
  }

  /**
    * A search finds the node of the name if it is stored and shown, or else the node of
    * its closest shown encloser, or else nothing.
    */
  lemma FindZone(t: Tree, q: seq<Label>, show: bool)
    requires Zone(t)
    ensures Finds(Flat(t, []), q, show, NO_HIT, Find(t, q, show, NO_HIT))
  {
    hide Finds, Sorted, Level, Entries, SameLabels, Aside, Within, Meets, Flat, FlatOne;
    if t.Leaf? {
      LeafFlat([]);
      NothingFound(q, show, NO_HIT);
    } else {
      FindStep(t, q, show, NO_HIT);
      FindLeaf(q, show, NO_HIT);
      hide Find;
      var x := NameOf(t.e);
      var own := FlatOne(Entry(t.e, t.d), []);
      assert x + [] == x && q + [] == q;
      LeafFlat([]);
      FlatParts(t, []);
      assert [] + own + [] == own;
      LevelGood(t.d, x);
      if SameLabels(q, x) {
        FindsOwn(t.e, t.d, q, [], show, NO_HIT);
      } else if !Meets(q, x) && x != [] {
        NotWithin(q, x);
        OwnAside(t.e, t.d, q, []);
        AsideNothing(own, q, show, NO_HIT);
      } else if Within(q, x) {
        FindBelow(t.e, t.d, q, [], show, NO_HIT);
      } else {
        OwnAside(t.e, t.d, q, []);
        AsideNothing(own, q, show, NO_HIT);
      }
    }
  }

  // ----- The search of the library -----

  /** The tree is what its links say, every level of it is in order and balanced, and its nodes are counted. */
  ghost predicate TreeOk(tree: DomainTree)
    reads tree, tree.nodes
  {
    Conf(tree.Now(), Top, tree.shape) && Zone(tree.shape) && tree.nodeCount == |Flat(tree.shape, [])|
  }

  /** The nodes that hold the level of the hole, from the top down. */
  ghost function Chain(k: Way): seq<Node> {
    match k
    case Top => []
    case InD(e, _, _, _, up) => Chain(up) + [e.nd]
    case _ => Chain(k.up)
  }

  /** What a comparison means for the search. */
  ghost predicate Said(r: Comparison, q: seq<Label>, x: seq<Label>) {
    && (r.relation == Equal <==> SameLabels(q, x))
    && (r.relation != Equal && x != [] ==> (r.commonLabelCount == 1 <==> !Meets(q, x)))
    && (r.order < 0 <==> NameLess(q, x))
    && (r.relation != Equal ==> (r.relation == SubDomain <==> Within(q, x)))
    && r.commonLabelCount >= 1 && CommonCount(q, x, r.commonLabelCount - 1)
  }

  lemma CompareSays(r: Comparison, q: seq<Label>, x: seq<Label>)
    requires Compares(r, q, x)
    ensures Said(r, q, x)
  {
    var c := r.commonLabelCount - 1;
    if q != [] && x != [] && c > 0 {
      assert SameFold(FromRight(q, 0), FromRight(x, 0));
    }
  }

  /** What is left of a name below a node. */
  lemma Remainder(q: seq<Label>, x: seq<Label>, s: seq<Label>, f: seq<Label>)
    requires Within(q, x) && SameLabels(q + s, f)
    ensures SameLabels(q[..|q| - |x|] + (x + s), f)
  {
    WithinSplit(q, x, s);
    SameTrans(q[..|q| - |x|] + (x + s), q + s, f);
  }

  lemma SameTrans(x: seq<Label>, y: seq<Label>, z: seq<Label>)
    requires SameLabels(x, y) && SameLabels(y, z)
    ensures SameLabels(x, z)
  {
    forall i | 0 <= i < |x|
      ensures SameFold(x[i], z[i])
    {
      assert SameFold(x[i], y[i]) && SameFold(y[i], z[i]);
    }
  }

  /** The deepest shown node above the hole. */
  ghost function ShownAbove(k: Way, show: bool): Node? {
    match k
    case Top => null
    case InD(e, _, _, _, up) => if Shown(show, e.data) then e.nd else ShownAbove(up, show)
    case _ => ShownAbove(k.up, show)
  }

  /** The search has come to the hole of `k` in `shape`, with `q` left of the name `f`. */
  ghost predicate Reached(shape: Tree, f: seq<Label>, show: bool, k: Way, t: Tree, q: seq<Label>, best: Hit) {
    && All(k, t) == shape && best.path == Chain(k) && best.result != ExactMatch && |best.path| + |q| <= |f| + 1
    && (k.Top? ==> |best.path| + |q| <= |f|)
    && best.target == ShownAbove(k, show) && (best.result == PartialMatch <==> best.target != null)
    && SameLabels(q + Suffix(k), f) && Find(t, q, show, best) == Find(shape, f, show, NO_HIT)
  }

  lemma ReachSide(shape: Tree, f: seq<Label>, show: bool, k: Way, t: Tree, q: seq<Label>, best: Hit)
    requires Reached(shape, f, show, k, t, q, best) && t.N?
    requires !SameLabels(q, NameOf(t.e)) && !Meets(q, NameOf(t.e)) && NameOf(t.e) != []
    ensures NameLess(q, NameOf(t.e)) ==> Reached(shape, f, show, InL(t.e, t.c, t.r, t.d, k), t.l, q, best)
    ensures !NameLess(q, NameOf(t.e)) ==> Reached(shape, f, show, InR(t.e, t.c, t.l, t.d, k), t.r, q, best)
  {
    hide SameLabels, NameLess, Meets;
  }

  lemma ReachBelow(shape: Tree, f: seq<Label>, show: bool, k: Way, t: Tree, q: seq<Label>, best: Hit)
    requires Reached(shape, f, show, k, t, q, best) && t.N? && Zone(shape) && FitsName(f)
    requires !SameLabels(q, NameOf(t.e)) && Within(q, NameOf(t.e))
    ensures |q| > |NameOf(t.e)| && |best.path| < MAX_LABELS
    ensures Reached(shape, f, show, InD(t.e, t.c, t.l, t.r, k), t.d, q[..|q| - |NameOf(t.e)|], Deeper(t.e, show, best))
  {
    hide *;
    var x := NameOf(t.e);
    ReachAll(shape, f, show, k, t, q, best);
    ReachFacts(shape, f, show, k, t, q, best);
    FindStep(t, q, show, best);
    ZoneNode(k, t);
    GoodName(t, Suffix(k));
    WithinLonger(q, x);
    Remainder(q, x, Suffix(k), f);
    if x != [] {
      WithinMeets(q, x);
    }
    BodyLength(f);
    DepthBound(f);
    ReachMake(shape, f, show, k, t, q[..|q| - |x|], q, best);
  }

  lemma ReachFacts(shape: Tree, f: seq<Label>, show: bool, k: Way, t: Tree, q: seq<Label>, best: Hit)
    requires Reached(shape, f, show, k, t, q, best)
    ensures SameLabels(q + Suffix(k), f) && Find(t, q, show, best) == Find(shape, f, show, NO_HIT)
    ensures |best.path| + |q| <= |f| + 1 && best.path == Chain(k) && best.target == ShownAbove(k, show)
    ensures best.result == PartialMatch <==> best.target != null
  {
  }

  lemma DepthBound(f: seq<Label>)
    requires FitsName(f)
    ensures |f| + 1 <= MAX_LABELS
  {
    BodyLength(f);
  }

  lemma FullFits(k: Way, t: Tree)
    requires Zone(All(k, t)) && t.N?
    ensures Valid(t.e.name) && FitsName(NameOf(t.e) + Suffix(k))
  {
    hide Level;
    ZoneNode(k, t);
    if Base(k).InD? {
      assert GoodNode(t.e, t.d, Suffix(k));
    } else {
      assert NameOf(t.e) + [] == NameOf(t.e);
    }
  }

  /** Every node of a chain but the top one has a label. */
  lemma {:induction false} ChainLength(k: Way, t: Tree)
    requires Zone(All(k, t))
    ensures |Chain(k)| <= |Suffix(k)| + 1 && (Base(k).Top? ==> Chain(k) == [])
    decreases k
  {
    hide Zone;
    if !k.Top? {
      ChainLength(k.up, Fill(k, t));
      if k.InD? && Base(k.up).InD? {
        ZoneNode(k.up, Fill(k, t));
        GoodName(Fill(k, t), Suffix(k.up));
      }
    }
  }

  /** The chain to a node of the tree has room in the array of `nodechain.go`. */
  lemma PathBound(tree: DomainTree, k: Way, t: Tree)
    requires TreeOk(tree) && All(k, t) == tree.shape && t.N?
    ensures |Chain(k)| + 1 <= MAX_LABELS
  {
    hide Conf, Zone, Good, FitsName, Flat;
    ChainLength(k, t);
    FullFits(k, t);
    DepthBound(NameOf(t.e) + Suffix(k));
    if Base(k).InD? {
      ZoneNode(k, t);
      GoodName(t, Suffix(k));
    }
  }

  lemma ReachMake(shape: Tree, f: seq<Label>, show: bool, k: Way, t: Tree, q': seq<Label>, q: seq<Label>, best: Hit)
    requires Reached(shape, f, show, k, t, q, best) && t.N? && |q'| + |NameOf(t.e)| == |q|
    requires (k.Top? || NameOf(t.e) != [])
    requires SameLabels(q' + (NameOf(t.e) + Suffix(k)), f)
    requires Find(t.d, q', show, Deeper(t.e, show, best)) == Find(t, q, show, best)
    ensures Reached(shape, f, show, InD(t.e, t.c, t.l, t.r, k), t.d, q', Deeper(t.e, show, best))
  {
    hide Find, SameLabels, NameOf;
  }

  lemma GoodName(t: Tree, s: seq<Label>)
    requires t.N?
    ensures Good(t, s) ==> NameOf(t.e) != []
  {
    assert Good(t, s) ==> GoodNode(t.e, t.d, s);
  }

  lemma ReachEnd(shape: Tree, f: seq<Label>, show: bool, k: Way, t: Tree, q: seq<Label>, best: Hit)
    requires Reached(shape, f, show, k, t, q, best)
    requires t.N? && SameLabels(q, NameOf(t.e)) ==> !Shown(show, t.e.data)
    requires t.N? && !SameLabels(q, NameOf(t.e)) ==>
      (Meets(q, NameOf(t.e)) || NameOf(t.e) == []) && !Within(q, NameOf(t.e))
    ensures best == Find(shape, f, show, NO_HIT) && All(k, t) == shape && best.path == Chain(k)
    ensures best.target == ShownAbove(k, show)
    ensures best.result != ExactMatch && (FitsName(f) ==> |best.path| <= MAX_LABELS)
    ensures best.result == PartialMatch <==> best.target != null
  {
    BodyLength(f);
  }

  lemma ReachExact(shape: Tree, f: seq<Label>, show: bool, k: Way, t: Tree, q: seq<Label>, best: Hit)
    requires Reached(shape, f, show, k, t, q, best) && t.N? && SameLabels(q, NameOf(t.e)) && Shown(show, t.e.data)
    requires Zone(shape) && FitsName(f)
    ensures |best.path| < MAX_LABELS
    ensures Hit(t.e.nd, ExactMatch, best.path + [t.e.nd]) == Find(shape, f, show, NO_HIT)
    ensures best.path == Chain(k) && All(k, t) == shape && SameLabels(NameOf(t.e) + Suffix(k), f)
  {
    SameAround(q, NameOf(t.e), Suffix(k), f);
    ZoneNode(k, t);
    BodyLength(f);
  }

  /** No chain gets longer than the longest name, so the panic of `push` cannot happen. */
  lemma ReachAll(shape: Tree, f: seq<Label>, show: bool, k: Way, t: Tree, q: seq<Label>, best: Hit)
    requires Reached(shape, f, show, k, t, q, best)
    ensures best.result != ExactMatch && All(k, t) == shape
    ensures FitsName(f) ==> |best.path| <= MAX_LABELS
  {
    BodyLength(f);
  }

  /** Compares a name with the node in the hole of a well-formed tree. */
  method CompareWith(tree: DomainTree, name: Name, node: Node, ghost k: Way, ghost t: Tree) returns (c: Comparison)
    requires Conf(tree.Now(), k, t) && Zone(All(k, t)) && t.N? && node == t.e.nd && Valid(name)
    ensures node in tree.nodes && Valid(node.name) && Labels(node.name) == NameOf(t.e) && node.data == t.e.data
    ensures node.left == Ref(t.l) && node.right == Ref(t.r) && node.down == Ref(t.d) && node.parent == Above(k)
    ensures Said(c, Labels(name), NameOf(t.e))
  {
    hide Conf, Zone, Level, Valid, Compares, Said;
    ConfCell(tree.Now(), k, t);
    ZoneNode(k, t);
    c := Compare(name, node.name);
    CompareSays(c, Labels(name), NameOf(t.e));
  }

  method SearchExt(tree: DomainTree, name: Name)
    returns (target: Node?, ret: SearchResult, nodePath: seq<Node>, ghost k: Way, ghost t: Tree)
    requires TreeOk(tree) && Valid(name)
    ensures Hit(target, ret, nodePath) == Find(tree.shape, Labels(name), tree.returnEmptyNode, NO_HIT)
    ensures |nodePath| <= MAX_LABELS && Conf(tree.Now(), k, t) && All(k, t) == tree.shape
    ensures ret == ExactMatch ==> t.N? && target == t.e.nd && nodePath == Chain(k) + [t.e.nd]
    ensures ret != ExactMatch ==> nodePath == Chain(k) && target == ShownAbove(k, tree.returnEmptyNode)
    ensures ret != ExactMatch ==> (ret == PartialMatch <==> target != null)
    ensures ret == ExactMatch ==>
      SameLabels(NameOf(t.e) + Suffix(k), Labels(name)) && Shown(tree.returnEmptyNode, t.e.data)
  {
    hide *;
    ghost var f, show := Labels(name), tree.returnEmptyNode;
    target, ret, nodePath, k, t := null, NotFound, [], Top, tree.shape;
    var name, node := name, tree.root;
    StartAtTop(tree, f);
    while node != null
      invariant Conf(tree.Now(), k, t) && node == Ref(t) && Valid(name)
      invariant Reached(tree.shape, f, show, k, t, Labels(name), Hit(target, ret, nodePath))
      decreases t
    {
      RefIs(t);
      ghost var q, x, best := Labels(name), NameOf(t.e), Hit(target, ret, nodePath);
      ReachAll(tree.shape, f, show, k, t, q, best);
      var comparison := CompareWith(tree, name, node, k, t);
      SaidThat(comparison, q, x);
      DeeperIs(t.e, show, best);
      if comparison.relation == Equal {
        if tree.returnEmptyNode || node.data.Data? {
          ReachExact(tree.shape, f, show, k, t, q, best);
          assert |nodePath| < MAX_LABELS;
          nodePath, target, ret := nodePath + [node], node, ExactMatch;
          return;
        }
        ReachEnd(tree.shape, f, show, k, t, q, best);
        return;
      } else if comparison.commonLabelCount == 1 && |node.name.offsets| != 1 {
        ReachSide(tree.shape, f, show, k, t, q, best);
        if comparison.order < 0 {
          ConfLeft(tree.Now(), k, t);
          node, k, t := node.left, InL(t.e, t.c, t.r, t.d, k), t.l;
        } else {
          ConfRight(tree.Now(), k, t);
          node, k, t := node.right, InR(t.e, t.c, t.l, t.d, k), t.r;
        }
      } else if comparison.relation == SubDomain {
        ReachBelow(tree.shape, f, show, k, t, q, best);
        if tree.returnEmptyNode || node.data.Data? {
          ret, target := PartialMatch, node;
        }
        assert |nodePath| < MAX_LABELS;
        nodePath := nodePath + [node];
        var rest := Subtract(name, node.name);
        name := rest.name;
        ConfDown(tree.Now(), k, t);
        node, k, t := node.down, InD(t.e, t.c, t.l, t.r, k), t.d;
      } else {
        ReachEnd(tree.shape, f, show, k, t, q, best);
        return;
      }
    }
    RefIs(t);
    ReachEnd(tree.shape, f, show, k, t, Labels(name), Hit(target, ret, nodePath));
    ReachAll(tree.shape, f, show, k, t, Labels(name), Hit(target, ret, nodePath));
  }

  lemma RefIs(t: Tree)
    ensures if t.Leaf? then Ref(t) == null else Ref(t) == t.e.nd
  {
  }

  lemma SaidThat(r: Comparison, q: seq<Label>, x: seq<Label>)
    requires Said(r, q, x)
    ensures r.relation == Equal <==> SameLabels(q, x)
    ensures r.relation != Equal && x != [] ==> (r.commonLabelCount == 1 <==> !Meets(q, x))
    ensures r.order < 0 <==> NameLess(q, x)
    ensures r.relation != Equal ==> (r.relation == SubDomain <==> Within(q, x))
  {
  }

  lemma DeeperIs(e: Info, show: bool, best: Hit)
    ensures Shown(show, e.data) <==> show || e.data.Data?
    ensures Deeper(e, show, best) ==
      if show || e.data.Data? then Hit(e.nd, PartialMatch, best.path + [e.nd])
      else Hit(best.target, best.result, best.path + [e.nd])
  {
  }

  lemma SameAround(q: seq<Label>, x: seq<Label>, s: seq<Label>, f: seq<Label>)
    requires SameLabels(q, x) && SameLabels(q + s, f)
    ensures SameLabels(x + s, f)
  {
    SameConcat(q, x, s);
    SameTrans(x + s, q + s, f);
  }

  lemma StartAtTop(tree: DomainTree, q: seq<Label>)
    requires TreeOk(tree)
    ensures Conf(tree.Now(), Top, tree.shape) && tree.root == Ref(tree.shape) && All(Top, tree.shape) == tree.shape
    ensures Zone(tree.shape)
    ensures Reached(tree.shape, q, tree.returnEmptyNode, Top, tree.shape, q, Hit(null, NotFound, []))
  {
    assert q + [] == q;
    SameAsItself(q);
  }
}
