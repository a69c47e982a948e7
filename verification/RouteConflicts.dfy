/**
  * When registration in `cement/httprouter/tree.go` panics, told by the text of the patterns:
  * exactly when one of them is malformed or two of them conflict.
  */
module RouteConflicts {
  import opened Options
  import opened Slashes
  import opened Router

  // ----- Patterns as text -----

  /** A wildcard without a name, or with another wildcard in its segment. */
  predicate BadWild(path: string, i: nat)
    requires i < |path|
  {
    path[i] == ':' &&
    var seg := SegLen(path[i..]);
    seg < 2 || ':' in path[i..][1..seg]
  }

  ghost predicate Malformed(path: string) {
    exists i :: 0 <= i < |path| && BadWild(path, i)
  }

  /** The text from a place to the end of its segment. */
  function Segment(s: string, m: nat): string
    requires m <= |s|
  {
    s[m..][..SegLen(s[m..])]
  }

  /** Two patterns, equal up to `m`, go on there, one with a wildcard and the other not with the same one. */
  predicate ConflictAt(a: string, b: string, m: nat) {
    && m < |a| && m < |b| && a[..m] == b[..m] && (a[m] == ':' || b[m] == ':') && Segment(a, m) != Segment(b, m)
  }

  ghost predicate Conflict(a: string, b: string) {
    exists m: nat :: ConflictAt(a, b, m)
  }

  /** What comes before, if nothing is wrong in it, does not matter. */
  lemma MalformedBehind(c: string, b: string)
    requires forall i :: 0 <= i < |c| ==> !BadWild(c + b, i)
    ensures Malformed(c + b) <==> Malformed(b)
  {
    hide BadWild;
    forall i | 0 <= i < |b| ensures BadWild(c + b, |c| + i) == BadWild(b, i) {
      BadShift(c, b, i);
    }
    if Malformed(c + b) {
      var i :| 0 <= i < |c + b| && BadWild(c + b, i);
      assert BadWild(b, i - |c|);
    }
    if Malformed(b) {
      var i :| 0 <= i < |b| && BadWild(b, i);
      assert BadWild(c + b, |c| + i);
    }
  }

  lemma BadShift(c: string, b: string, i: nat)
    requires i < |b|
    ensures BadWild(c + b, |c| + i) == BadWild(b, i)
  {
    assert (c + b)[|c| + i..] == b[i..];
  }

  lemma MalformedStatic(c: string, b: string)
    requires ':' !in c
    ensures Malformed(c + b) <==> Malformed(b)
  {
    hide Malformed;
    MalformedBehind(c, b);
  }

  /** A wildcard with a name, up to the end of its segment. */
  predicate NameText(name: string) {
    |name| >= 2 && name[0] == ':' && ':' !in name[1..] && '/' !in name
  }

  /** Nothing, or the next segment. */
  predicate NextText(rest: string) {
    rest == "" || rest[0] == '/'
  }

  lemma NameSegment(name: string, b: string)
    requires '/' !in name && NextText(b)
    ensures SegLen((name + b)[0..]) == |name| && Segment(name + b, 0) == name
  {
    assert (name + b)[0..] == name + b;
    SegLenIs(name + b, |name|);
  }

  lemma MalformedName(name: string, b: string)
    requires NameText(name) && NextText(b)
    ensures Malformed(name + b) <==> Malformed(b)
  {
    hide Malformed;
    NameSegment(name, b);
    assert (name + b)[0..][1..|name|] == name[1..];
    forall i | 0 <= i < |name| ensures !BadWild(name + b, i) {
      if i > 0 {
        assert (name + b)[i] == name[1..][i - 1];
      }
    }
    MalformedBehind(name, b);
  }

  lemma MalformedNone(b: string)
    requires ':' !in b
    ensures !Malformed(b)
  {
  }

  lemma ConflictBehind(c: string, a: string, b: string)
    requires forall m: nat :: m < |c| ==> !ConflictAt(c + a, c + b, m)
    ensures Conflict(c + a, c + b) <==> Conflict(a, b)
  {
    hide ConflictAt;
    forall m: nat ensures ConflictAt(c + a, c + b, |c| + m) == ConflictAt(a, b, m) {
      ConflictShift(c, a, b, m);
    }
    if Conflict(c + a, c + b) {
      var m: nat :| ConflictAt(c + a, c + b, m);
      assert m >= |c|;
      ConflictShift(c, a, b, m - |c|);
      assert ConflictAt(a, b, m - |c|);
    }
    if Conflict(a, b) {
      var m: nat :| ConflictAt(a, b, m);
      assert ConflictAt(c + a, c + b, |c| + m);
    }
  }

  lemma ConflictShift(c: string, a: string, b: string, m: nat)
    ensures ConflictAt(c + a, c + b, |c| + m) == ConflictAt(a, b, m)
  {
    if m < |a| && m < |b| {
      assert (c + a)[|c| + m..] == a[m..] && (c + b)[|c| + m..] == b[m..];
      assert (c + a)[..|c| + m] == c + a[..m] && (c + b)[..|c| + m] == c + b[..m];
      Joins(c, a[..m], b[..m]);
    }
  }

  lemma ConflictStatic(c: string, a: string, b: string)
    requires ':' !in c
    ensures Conflict(c + a, c + b) <==> Conflict(a, b)
  {
    hide Conflict, Segment;
    ConflictBehind(c, a, b);
  }

  lemma ConflictName(name: string, a: string, b: string)
    requires NameText(name) && NextText(a) && NextText(b)
    ensures Conflict(name + a, name + b) <==> Conflict(a, b)
  {
    hide Conflict, Segment;
    NameSegment(name, a);
    NameSegment(name, b);
    forall m: nat | m < |name| ensures !ConflictAt(name + a, name + b, m) {
      if m > 0 {
        assert name[m] == name[1..][m - 1];
      }
    }
    ConflictBehind(name, a, b);
  }

  lemma ConflictEnd(a: string)
    ensures !Conflict(a, "") && !Conflict("", a)
  {
  }

  /** Where two texts part, neither with a wildcard, there is no conflict, there or later. */
  lemma PartsPlain(a: string, b: string)
    requires a != "" && b != "" && a[0] != b[0] && a[0] != ':' && b[0] != ':'
    ensures !Conflict(a, b)
  {
    forall m: nat ensures !ConflictAt(a, b, m) {
      if 0 < m < |a| && m < |b| {
        assert a[..m][0] == a[0] && b[..m][0] == b[0];
      }
    }
  }

  /** Where they part and one has a wildcard, there is one. */
  lemma PartsWild(a: string, b: string)
    requires a != "" && b != "" && a[0] != b[0] && (a[0] == ':' || b[0] == ':')
    ensures Conflict(a, b)
  {
    assert a[0..] == a && b[0..] == b;
    assert ConflictAt(a, b, 0);
  }

  // ----- One path below a node -----

  /** Where `insertChild` can panic: at the first wildcard, or behind it. */
  lemma InsertStep(n: Node, np: nat, path: string, h: int)
    requires np == Wilds(path) > 0
    ensures var i := WildAt(path);
      && i < |path| && var seg := SegLen(path[i..]);
      && 0 < seg <= |path| - i && (':' !in path[i + 1..i + seg] ==> Wilds(path[i + seg..]) == np - 1)
      && (InsertChild(n, np, path, h).None? <==>
            || ':' in path[i + 1..i + seg] || n.children != [] || seg < 2
            || (path[i + seg..] != ""
                && InsertChild(EMPTY.(maxParams := np - 1, priority := 1), np - 1, path[i + seg..], h).None?))
  {
    hide Wilds, WildAt, SegLen;
    WildsAt(path);
    var i := WildAt(path);
    var seg := SegLen(path[i..]);
    if ':' !in path[i + 1..i + seg] {
      WildsName(path, i, seg);
    }
  }

  /** `insertChild` panics exactly for a malformed path, or a wildcard beside other children. */
  lemma {:induction false} InsertFails(n: Node, np: nat, path: string, h: int)
    requires np == Wilds(path)
    ensures InsertChild(n, np, path, h).None? <==> Malformed(path) || (np > 0 && n.children != [])
    decreases |path|
  {
    hide *;
    if np == 0 {
      WildsNone(path);
      MalformedNone(path);
      InsertNone(n, path, h);
    } else {
      InsertStep(n, np, path, h);
      var i := WildAt(path);
      var seg := SegLen(path[i..]);
      if ':' in path[i + 1..i + seg] || seg < 2 {
        BadHere(path, i);
      } else {
        InsertMalformed(path, i, seg);
        if path[i + seg..] == "" {
          MalformedNone(path[i + seg..]);
        } else {
          InsertFails(EMPTY.(maxParams := np - 1, priority := 1), np - 1, path[i + seg..], h);
          NoChildren(np - 1);
        }
      }
    }
  }

  lemma NoChildren(np: nat)
    ensures EMPTY.(maxParams := np, priority := 1).children == []
  {
  }

  lemma BadHere(path: string, i: nat)
    requires i < |path| && path[i] == ':' && 0 < SegLen(path[i..]) <= |path| - i
    requires var seg := SegLen(path[i..]); ':' in path[i + 1..i + seg] || seg < 2
    ensures Malformed(path)
  {
    hide SegLen;
    var seg := SegLen(path[i..]);
    assert path[i..][1..seg] == path[i + 1..i + seg];
    assert BadWild(path, i);
  }

  lemma InsertMalformed(path: string, i: nat, seg: nat)
    requires i == WildAt(path) < |path| && seg == SegLen(path[i..]) >= 2 && ':' !in path[i + 1..i + seg]
    ensures Malformed(path) <==> Malformed(path[i + seg..])
  {
    hide Malformed, WildAt, SegLen;
    var pre, name, rest := path[..i], path[i..i + seg], path[i + seg..];
    NoWildBefore(path, i);
    NoSlashIn(path[i..], seg);
    CutHere(path, i, seg);
    assert path == pre + (name + rest);
    MalformedStatic(pre, name + rest);
    MalformedName(name, rest);
  }

  // ----- Every node has a pattern -----

  /** Nodes without children have a handle. */
  ghost predicate Live(n: Node)
    decreases n
  {
    && (n.children == [] ==> n.handle.Some?)
    && forall i :: 0 <= i < |n.children| ==> Live(n.children[i])
  }

  lemma LiveMake(n: Node)
    requires n.children == [] ==> n.handle.Some?
    requires forall i :: 0 <= i < |n.children| ==> Live(n.children[i])
    ensures Live(n)
  {
  }

  lemma LiveParts(n: Node)
    requires Live(n)
    ensures n.children == [] ==> n.handle.Some?
    ensures forall i :: 0 <= i < |n.children| ==> Live(n.children[i])
  {
  }

  lemma ChildPath(n: Node, i: nat)
    requires Formed(n) && i < |n.children|
    ensures n.children[i].path != "" && Formed(n.children[i])
    ensures n.wildChild ==> |n.children| == 1 && n.children[0].kind == Param && n.kind != Param
  {
    assert Formed(n.children[i]);
  }

  /** So every node stores some pattern. */
  lemma {:induction false} SomePattern(n: Node) returns (pat: string, h: int)
    requires Live(n) && Formed(n)
    ensures Has(n, pat, h)
    decreases n
  {
    hide *;
    LiveParts(n);
    if n.handle.Some? {
      pat, h := n.path, n.handle.value;
      HasIs(n, pat, h);
    } else {
      ChildPath(n, 0);
      var q, h' := SomePattern(n.children[0]);
      HasIs(n.children[0], q, h');
      pat, h := n.path + q, h';
      HasIs(n, pat, h);
      assert pat[|n.path|..] == q;
      HasBelowAt(n.children, 0, q, h);
    }
  }

  lemma HasBelowAt(ns: seq<Node>, i: nat, pat: string, h: int)
    requires i < |ns| && Has(ns[i], pat, h)
    ensures HasBelow(ns, pat, h)
  {
  }

  lemma {:induction false} LiveInsert(n: Node, np: nat, path: string, h: int)
    requires np == Wilds(path) && InsertChild(n, np, path, h).Some? && (np == 0 ==> n.children == [])
    ensures Live(InsertChild(n, np, path, h).value)
    decreases |path|
  {
    hide *;
    if np == 0 {
      InsertNone(n, path, h);
      LiveMake(n.(path := path, handle := Some(h)));
    } else {
      var pre, name, rest := InsertParts(n, np, path, h);
      SegmentParts(path, pre, name, rest);
      var r := InsertChild(n, np, path, h).value;
      if rest != "" {
        NoChildren(np - 1);
        LiveInsert(EMPTY.(maxParams := np - 1, priority := 1), np - 1, rest, h);
      }
      LiveMake(r.children[0]);
      LiveMake(r);
    }
  }

  lemma LiveSplit(n: Node, i: nat, bound: nat)
    requires Live(n) && i < |n.path|
    ensures Live(SplitAt(n, i, bound))
  {
    hide *;
    LiveParts(n);
    SplitLow(n, i, bound);
    LiveMake(SplitAt(n, i, bound).children[0]);
    LiveMake(SplitAt(n, i, bound));
  }

  lemma SplitLow(n: Node, i: nat, bound: nat)
    requires i < |n.path|
    ensures var r := SplitAt(n, i, bound);
      |r.children| == 1 && r.children[0].children == n.children && r.children[0].handle == n.handle
  {
  }

  lemma LivePromoted(n: Node, pos: nat, c: Node)
    requires pos < |n.children| && Indexed(n) && StartsWith(c, n.indices[pos]) && Live(c)
    requires forall i :: 0 <= i < |n.children| && i != pos ==> Live(n.children[i])
    ensures Live(Promoted(n, pos, c))
  {
    hide Live, Promoted, MovesTo, StartsWith, Indexed;
    IndexedSize(n);
    PromotedParts(n, pos, c);
    LiveMake(Promoted(n, pos, c));
  }

  /** A child that is added. */
  lemma LiveAdd(n: Node, rest: string, h: int)
    requires rest != "" && Formed(n) && !n.wildChild && |n.indices| == |n.children| && AddChild(n, rest, h).Some?
    requires (n.kind == Param ==> rest[0] == '/' && n.children == []) && rest[0] !in n.indices
    requires forall i :: 0 <= i < |n.children| ==> Live(n.children[i])
    ensures Live(AddChild(n, rest, h).value)
  {
    hide *;
    AddIs(n, rest, h);
    WildsHere(rest);
    var np := Wilds(rest);
    if rest[0] == ':' {
      LiveInsert(n, np, rest, h);
    } else {
      var e := EMPTY.(maxParams := np, priority := 1);
      NoChildren(np);
      BlankEmpty(np);
      LiveInsert(e, np, rest, h);
      InsertFormed(e, np, rest, h);
      var c := InsertChild(e, np, rest, h).value;
      FormedParts(n);
      AppendedLive(n, rest[0], c);
    }
  }

  lemma WildsHere(rest: string)
    requires rest != ""
    ensures rest[0] == ':' ==> Wilds(rest) > 0
  {
  }

  lemma AppendedLive(n: Node, b: char, c: Node)
    requires |n.indices| == |n.children| && StartsWith(c, b) && b !in n.indices && Live(c)
    requires Indexed(n) || n.children == []
    requires forall i :: 0 <= i < |n.children| ==> Live(n.children[i])
    ensures Live(Promoted(Appended(n, b, c), |n.children|, c))
  {
    hide Live, Promoted, StartsWith;
    AppendIndexed(n, Appended(n, b, c), c, b);
    LivePromoted(Appended(n, b, c), |n.children|, c);
  }

  /** Registration keeps this. */
  lemma {:induction false} LiveWalk(n: Node, path: string, h: int)
    requires Formed(n) && (n.kind == Param ==> Fits(n.path, path)) && Live(n) && Walk(n, path, h).Some?
    ensures Live(Walk(n, path, h).value)
    decreases n
  {
    hide *;
    var rest := if |n.path| <= |path| then path[|n.path|..] else "";
    LiveParts(n);
    EnteredIs(n, path);
    match Turns(n, path) {
      case Split(i) =>
        StepSplit(n, path, h);
        var n1 := SplitAt(n, i, Wilds(path));
        LiveSplit(n, i, Wilds(path));
        LiveParts(n1);
        if i == |path| {
          LiveMake(n1.(handle := Some(h)));
        } else {
          SplitFormed(n, i, Wilds(path));
          SplitIs(n, i, Wilds(path));
          PartsHere(n, path, i);
          LiveAdd(n1, path[i..], h);
        }
      case Here =>
        StepHere(n, path, h);
        LiveMake(Entered(n, path).(handle := Some(h)));
      case Clash =>
        StepHere(n, path, h);
      case Below =>
        StepBelow(n, path, h);
        OnlySome(Entered(n, path), Walk(n.children[0], rest, h));
        LiveWalk(n.children[0], rest, h);
        LiveMake(Entered(n, path).(children := [Walk(n.children[0], rest, h).value]));
      case Child(k) =>
        StepChild(n, path, h);
        EnteredFormed(n, path);
        ChildSome(Entered(n, path), k, Walk(n.children[k], rest, h));
        LiveWalk(n.children[k], rest, h);
        WalkFormed(n.children[k], rest, h);
        IndexedChild(n, k);
        KeptParts(n.children[k], rest, Walk(n.children[k], rest, h).value);
        LikeStarts(n, k, Walk(n.children[k], rest, h).value);
        LivePromoted(Entered(n, path), k, Walk(n.children[k], rest, h).value);
      case New =>
        StepNew(n, path, h);
        EnteredFormed(n, path);
        LiveAdd(Entered(n, path), rest, h);
    }
  }

  /** Where a path leaves the path of a node. */
  lemma PartsHere(n: Node, path: string, i: nat)
    requires i == CommonLen(path, n.path) < |n.path| && i < |path|
    ensures path[i] != n.path[i] && path[i] !in [n.path[i]] && path[..i] == n.path[..i]
  {
  }

  // ----- One registration -----

  /** Some stored pattern conflicts with a path. */
  ghost predicate Blocked(n: Node, path: string) {
    exists pat, h :: Has(n, pat, h) && Conflict(pat, path)
  }

  lemma BlockedBy(n: Node, path: string, pat: string, h: int)
    requires Has(n, pat, h) && Conflict(pat, path)
    ensures Blocked(n, path)
  {
  }

  lemma Unblocked(n: Node, path: string)
    requires forall pat, h :: Has(n, pat, h) ==> !Conflict(pat, path)
    ensures !Blocked(n, path)
  {
  }

  /** A pattern is that of the node itself or goes on below one of its children. */
  lemma PatternParts(n: Node, pat: string, h: int) returns (i: nat, q: string)
    requires Formed(n) && Has(n, pat, h)
    ensures pat == n.path + q
    ensures q != "" ==> i < |n.children| && Has(n.children[i], q, h)
  {
    hide Has, Formed;
    HasIs(n, pat, h);
    i, q := 0, pat[|n.path|..];
    if q != "" {
      i := SomeBelow(n.children, q, h);
    }
  }

  /** The other way round. */
  lemma PatternMade(n: Node, i: nat, q: string, h: int)
    requires Formed(n) && i < |n.children| && Has(n.children[i], q, h)
    ensures Has(n, n.path + q, h) && q != "" && n.children[i].path <= q
  {
    hide Has, Formed;
    ChildPath(n, i);
    HasIs(n.children[i], q, h);
    HasIs(n, n.path + q, h);
    assert (n.path + q)[|n.path|..] == q;
    HasBelowAt(n.children, i, q, h);
  }

  /** The patterns of a wildcard node go on with the next segment. */
  lemma ParamPattern(n: Node, q: string, h: int)
    requires Formed(n) && n.kind == Param && Has(n, q, h)
    ensures NameText(n.path) && n.path <= q && NextText(q[|n.path|..])
  {
    hide Has;
    FormedParts(n);
    HasIs(n, q, h);
    var i, z := PatternParts(n, q, h);
    assert q[|n.path|..] == z;
    if z != "" {
      assert StartsWith(n.children[i], '/');
      HasIs(n.children[i], z, h);
      assert z[0] == n.children[i].path[0];
    }
  }

  /** What is left of a path and of a pattern behind the path of a node. */
  lemma ConflictLeft(n: Node, q: string, rest: string)
    requires Formed(n) && (n.kind == Param ==> NextText(q) && NextText(rest))
    ensures Conflict(n.path + q, n.path + rest) <==> Conflict(q, rest)
    ensures Malformed(n.path + rest) <==> Malformed(rest)
  {
    hide Conflict, Malformed, Formed;
    FormedParts(n);
    if n.kind == Param {
      ConflictName(n.path, q, rest);
      MalformedName(n.path, rest);
    } else {
      ConflictStatic(n.path, q, rest);
      MalformedStatic(n.path, rest);
    }
  }

  /** The pattern of a node seen from its own path. */
  lemma PatternLeft(n: Node, pat: string, h: int, path: string) returns (i: nat, q: string)
    requires Formed(n) && Has(n, pat, h) && n.path <= path && (n.kind == Param ==> Fits(n.path, path))
    ensures pat == n.path + q && (q != "" ==> i < |n.children| && Has(n.children[i], q, h))
    ensures Conflict(pat, path) <==> Conflict(q, path[|n.path|..])
  {
    hide Conflict, Has, Formed;
    i, q := PatternParts(n, pat, h);
    var rest := path[|n.path|..];
    assert path == n.path + rest;
    if n.kind == Param {
      ParamPattern(n, pat, h);
      assert pat[|n.path|..] == q;
    }
    ConflictLeft(n, q, rest);
  }

  lemma MalformedLeft(n: Node, path: string)
    requires Formed(n) && n.path <= path && (n.kind == Param ==> Fits(n.path, path))
    ensures Malformed(path) <==> Malformed(path[|n.path|..])
  {
    hide Malformed, Formed, Conflict;
    var rest := path[|n.path|..];
    assert path == n.path + rest;
    ConflictLeft(n, "", rest);
  }

  /** The path ends at the node. */
  lemma CaseHere(n: Node, path: string)
    requires Formed(n) && path == n.path
    ensures !Malformed(path) && !Blocked(n, path)
  {
    hide Has, Formed, Conflict, Malformed;
    assert path[|n.path|..] == "";
    MalformedLeft(n, path);
    MalformedNone("");
    forall pat, h | Has(n, pat, h) ensures !Conflict(pat, path) {
      var i, q := PatternLeft(n, pat, h, path);
      ConflictEnd(q);
    }
    Unblocked(n, path);
  }

  /** The path goes on below the only child. */
  lemma CaseBelow(n: Node, path: string)
    requires Formed(n) && n.path <= path && |n.path| < |path| && |n.children| == 1
    requires n.kind == Param ==> Fits(n.path, path)
    ensures Malformed(path) || Blocked(n, path) <==>
      Malformed(path[|n.path|..]) || Blocked(n.children[0], path[|n.path|..])
  {
    hide Has, Formed, Conflict, Malformed, Fits;
    var rest, c := path[|n.path|..], n.children[0];
    MalformedLeft(n, path);
    if Blocked(n, path) {
      var pat, h :| Has(n, pat, h) && Conflict(pat, path);
      var i, q := PatternLeft(n, pat, h, path);
      ConflictEnd(rest);
      BlockedBy(c, rest, q, h);
    }
    if Blocked(c, rest) {
      var q, h :| Has(c, q, h) && Conflict(q, rest);
      PatternMade(n, 0, q, h);
      var i, q' := PatternLeft(n, n.path + q, h, path);
      Joins(n.path, q, q');
      BlockedBy(n, path, n.path + q, h);
    }
  }

  /** The next segment of the path is not that of the wildcard below the node. */
  lemma CaseClash(n: Node, path: string)
    requires Formed(n) && Live(n) && n.wildChild && n.path <= path && |n.path| < |path|
    requires |n.children| == 1 && !Fits(n.children[0].path, path[|n.path|..])
    ensures Blocked(n, path)
  {
    hide Has, Formed, Conflict, Live;
    var rest, c := path[|n.path|..], n.children[0];
    ChildPath(n, 0);
    LiveParts(n);
    var q, h := SomePattern(c);
    ParamPattern(c, q, h);
    OtherSegment(c.path, q, rest);
    PatternMade(n, 0, q, h);
    var i, q' := PatternLeft(n, n.path + q, h, path);
    Joins(n.path, q, q');
    BlockedBy(n, path, n.path + q, h);
  }

  lemma OtherSegment(name: string, q: string, rest: string)
    requires NameText(name) && name <= q && NextText(q[|name|..]) && rest != "" && !Fits(name, rest)
    ensures Conflict(q, rest)
  {
    assert q == name + q[|name|..];
    NameSegment(name, q[|name|..]);
    assert rest[0..] == rest;
    assert ConflictAt(q, rest, 0);
  }

  /** What an indexed child has begins with its byte, which is no wildcard. */
  lemma IndexByte(n: Node, i: nat, q: string, h: int)
    requires Formed(n) && Indexed(n) && i < |n.children| && Has(n.children[i], q, h)
    ensures q != "" && q[0] == n.indices[i] != ':'
  {
    hide Has;
    FormedParts(n.children[i]);
    HasIs(n.children[i], q, h);
    assert StartsWith(n.children[i], n.indices[i]);
    assert n.children[i].path[0] == q[0];
  }

  /** The path goes on below the child with its next byte. */
  lemma CaseChild(n: Node, k: nat, path: string)
    requires Formed(n) && Indexed(n) && n.kind != Param && n.path <= path && |n.path| < |path|
    requires k < |n.children| == |n.indices| && n.indices[k] == path[|n.path|] && Live(n)
    ensures Malformed(path) || Blocked(n, path) <==>
      Malformed(path[|n.path|..]) || Blocked(n.children[k], path[|n.path|..])
  {
    hide Has, Formed, Conflict, Malformed, Live;
    var rest, c := path[|n.path|..], n.children[k];
    MalformedLeft(n, path);
    if Blocked(n, path) {
      var pat, h :| Has(n, pat, h) && Conflict(pat, path);
      var i, q := PatternLeft(n, pat, h, path);
      ConflictEnd(rest);
      if i != k {
        NotBeside(n, k, i, q, h, rest);
      }
      BlockedBy(c, rest, q, h);
    }
    if Blocked(c, rest) {
      var q, h :| Has(c, q, h) && Conflict(q, rest);
      PatternMade(n, k, q, h);
      var i, q' := PatternLeft(n, n.path + q, h, path);
      Joins(n.path, q, q');
      BlockedBy(n, path, n.path + q, h);
    }
  }

  /** No pattern of another child conflicts. */
  lemma NotBeside(n: Node, k: nat, i: nat, q: string, h: int, rest: string)
    requires Formed(n) && Indexed(n) && Live(n) && k < |n.children| && i < |n.children| && i != k
    requires Has(n.children[i], q, h) && rest != "" && rest[0] == n.indices[k]
    ensures !Conflict(q, rest)
  {
    hide Has, Formed, Conflict, Live;
    IndexByte(n, i, q, h);
    LiveParts(n);
    ChildPath(n, k);
    var p, g := SomePattern(n.children[k]);
    IndexByte(n, k, p, g);
    PartsPlain(q, rest);
  }

  /** The path needs a new child. */
  lemma CaseNew(n: Node, n0: Node, path: string, h: int)
    requires Formed(n) && Live(n) && !n.wildChild && n.path <= path && |n.path| < |path|
    requires |n.indices| == |n.children| && path[|n.path|] !in n.indices
    requires (n.kind == Param ==> path[|n.path|] == '/' && n.children == [] && Fits(n.path, path))
    requires n0.children == n.children && n0.indices == n.indices
    ensures AddChild(n0, path[|n.path|..], h).None? <==> Malformed(path) || Blocked(n, path)
  {
    hide Has, Formed, Conflict, Malformed, Live, AddChild, InsertChild, Wilds, Blocked, Fits;
    var rest := path[|n.path|..];
    MalformedLeft(n, path);
    AddFails(n0, rest, h);
    if n.children == [] {
      forall pat, h' | Has(n, pat, h') ensures !Conflict(pat, path) {
        var i, q := PatternLeft(n, pat, h', path);
        ConflictEnd(rest);
      }
      Unblocked(n, path);
    } else {
      FormedParts(n);
      if rest[0] == ':' {
        BesideChildren(n, path);
      } else {
        forall pat, h' | Has(n, pat, h') ensures !Conflict(pat, path) {
          var i, q := PatternLeft(n, pat, h', path);
          ConflictEnd(rest);
          if q != "" {
            IndexByte(n, i, q, h');
            PartsPlain(q, rest);
          }
        }
        Unblocked(n, path);
      }
    }
  }

  lemma AddFails(n: Node, rest: string, h: int)
    requires rest != "" && |n.indices| == |n.children|
    ensures AddChild(n, rest, h).None? <==> Malformed(rest) || (rest[0] == ':' && n.children != [])
  {
    hide *;
    AddIs(n, rest, h);
    WildsHere(rest);
    NoChildren(Wilds(rest));
    if rest[0] == ':' {
      InsertFails(n, Wilds(rest), rest, h);
    } else {
      InsertFails(EMPTY.(maxParams := Wilds(rest), priority := 1), Wilds(rest), rest, h);
    }
  }

  /** A wildcard beside children that have patterns. */
  lemma BesideChildren(n: Node, path: string)
    requires Formed(n) && Live(n) && Indexed(n) && n.kind != Param && n.path <= path && |n.path| < |path|
    requires n.children != [] && path[|n.path|] == ':'
    ensures Blocked(n, path)
  {
    hide Has, Formed, Conflict, Live;
    var rest := path[|n.path|..];
    LiveParts(n);
    ChildPath(n, 0);
    var q, h := SomePattern(n.children[0]);
    IndexByte(n, 0, q, h);
    PartsWild(q, rest);
    PatternMade(n, 0, q, h);
    var i, q' := PatternLeft(n, n.path + q, h, path);
    Joins(n.path, q, q');
    BlockedBy(n, path, n.path + q, h);
  }

  /** A pattern, from where a path leaves the path of the node. */
  lemma SplitPattern(n: Node, pat: string, h: int, path: string, i: nat)
    requires Formed(n) && n.kind != Param && i == CommonLen(path, n.path) < |n.path| && Has(n, pat, h)
    ensures i < |pat| && pat[i] == n.path[i] != ':' && (Conflict(pat, path) <==> Conflict(pat[i..], path[i..]))
  {
    hide Has, Formed, Conflict, CommonLen;
    FormedParts(n);
    HasIs(n, pat, h);
    var c := n.path[..i];
    assert pat == c + pat[i..] && path == c + path[i..];
    ConflictStatic(c, pat[i..], path[i..]);
  }

  lemma SplitMalformed(n: Node, path: string, i: nat)
    requires Formed(n) && n.kind != Param && i == CommonLen(path, n.path) < |n.path|
    ensures Malformed(path) <==> Malformed(path[i..])
  {
    hide Formed, Malformed, CommonLen;
    FormedParts(n);
    assert path == n.path[..i] + path[i..];
    MalformedStatic(n.path[..i], path[i..]);
  }

  /** The path ends inside the path of the node. */
  lemma CaseInside(n: Node, path: string)
    requires Formed(n) && n.kind != Param && |path| == CommonLen(path, n.path) < |n.path|
    ensures !Malformed(path) && !Blocked(n, path)
  {
    hide *;
    SplitMalformed(n, path, |path|);
    MalformedNone("");
    forall pat, h | Has(n, pat, h) ensures !Conflict(pat, path) {
      SplitPattern(n, pat, h, path, |path|);
      ConflictEnd(pat[|path|..]);
      assert path[|path|..] == "";
    }
    Unblocked(n, path);
    assert path[|path|..] == "";
  }

  /** The path leaves the path of the node. */
  lemma CaseSplit(n: Node, n1: Node, path: string, i: nat, h: int)
    requires Formed(n) && Live(n) && n.kind != Param && i == CommonLen(path, n.path) < |n.path| && i < |path|
    requires |n1.indices| == |n1.children| == 1
    ensures AddChild(n1, path[i..], h).None? <==> Malformed(path) || Blocked(n, path)
  {
    hide *;
    var rest := path[i..];
    SplitMalformed(n, path, i);
    PartsHere(n, path, i);
    AddFails(n1, rest, h);
    if rest[0] == ':' {
      var pat, h' := SomePattern(n);
      SplitPattern(n, pat, h', path, i);
      PartsWild(pat[i..], rest);
      BlockedBy(n, path, pat, h');
    } else {
      forall pat, h' | Has(n, pat, h') ensures !Conflict(pat, path) {
        SplitPattern(n, pat, h', path, i);
        PartsPlain(pat[i..], rest);
      }
      Unblocked(n, path);
    }
  }

  /** The walk panics exactly for a malformed path, or one that conflicts with a stored pattern. */
  lemma {:induction false} WalkFails(n: Node, path: string, h: int)
    requires Formed(n) && (n.kind == Param ==> Fits(n.path, path)) && Live(n)
    ensures Walk(n, path, h).None? <==> Malformed(path) || Blocked(n, path)
    decreases n
  {
    hide *;
    var rest := if |n.path| <= |path| then path[|n.path|..] else "";
    LiveParts(n);
    match Turns(n, path) {
      case Split(i) =>
        StepSplit(n, path, h);
        SplitIs(n, i, Wilds(path));
        if i == |path| {
          CaseInside(n, path);
        } else {
          CaseSplit(n, SplitAt(n, i, Wilds(path)), path, i, h);
        }
      case Here =>
        StepHere(n, path, h);
        CaseHere(n, path);
      case Clash =>
        StepHere(n, path, h);
        ClashTurn(n, path);
        CaseClash(n, path);
      case Below =>
        StepBelow(n, path, h);
        OnlySome(Entered(n, path), Walk(n.children[0], rest, h));
        WalkFails(n.children[0], rest, h);
        CaseBelow(n, path);
      case Child(k) =>
        StepChild(n, path, h);
        EnteredFormed(n, path);
        ChildSome(Entered(n, path), k, Walk(n.children[k], rest, h));
        WalkFails(n.children[k], rest, h);
        CaseChild(n, k, path);
      case New =>
        StepNew(n, path, h);
        EnteredFormed(n, path);
        CaseNew(n, Entered(n, path), path, h);
    }
  }

  lemma ClashTurn(n: Node, path: string)
    requires Formed(n) && Turns(n, path) == Turn.Clash
    ensures n.wildChild && n.path <= path && |n.path| < |path| && |n.children| == 1
    ensures !Fits(n.children[0].path, path[|n.path|..])
  {
    PathFirst(n, path);
  }

  // ----- Whole runs -----

  /** A tree as registration leaves it, with a pattern below every node. */
  ghost predicate Grown(n: Node) {
    Valid(n) && (n.path != "" || n.children != [] ==> Live(n))
  }

  lemma AddRouteFails(n: Node, path: string, h: int)
    requires Grown(n) && Plain(path)
    ensures AddRoute(n, path, h).None? <==> Malformed(path) || Blocked(n, path)
    ensures AddRoute(n, path, h).Some? ==> Grown(AddRoute(n, path, h).value)
  {
    hide *;
    GrownParts(n);
    PlainParts(path);
    ValidParts(n);
    AddRouteIs(n, path, h);
    if n.path != "" || n.children != [] {
      WalkFails(n, path, h);
      if AddRoute(n, path, h).Some? {
        LiveWalk(n, path, h);
      }
    } else {
      var n1 := n.(priority := n.priority + 1);
      InsertFails(n1, Wilds(path), path, h);
      forall pat, h' ensures !Has(n, pat, h') {
        HasLeaf(n, pat, h');
      }
      Unblocked(n, path);
      if AddRoute(n, path, h).Some? {
        LiveInsert(n1, Wilds(path), path, h);
        LiveRoot(InsertChild(n1, Wilds(path), path, h).value);
      }
    }
    if AddRoute(n, path, h).Some? {
      AddRouteUpdates(n, path, h, "", 0);
      GrownMake(AddRoute(n, path, h).value);
    }
  }

  lemma GrownParts(n: Node)
    requires Grown(n)
    ensures Valid(n) && (n.path != "" || n.children != [] ==> Live(n))
  {
  }

  lemma GrownMake(n: Node)
    requires Valid(n) && Live(n)
    ensures Grown(n)
  {
  }

  lemma LiveRoot(n: Node)
    requires Live(n)
    ensures Live(n.(kind := Root))
  {
  }

  lemma {:induction false} RunGrown(routes: seq<Route>)
    requires Paths(routes) && Register(routes).Some?
    ensures Grown(Register(routes).value)
  {
    hide Grown, AddRoute;
    if routes == [] {
      EmptyGrown();
    } else {
      var last := routes[|routes| - 1];
      RunGrown(routes[..|routes| - 1]);
      AddRouteFails(Register(routes[..|routes| - 1]).value, last.path, last.handle);
    }
  }

  lemma EmptyGrown()
    ensures Grown(EMPTY)
  {
    EmptyValid();
  }

  lemma {:induction false} LatestSome(routes: seq<Route>, pat: string)
    ensures Latest(routes, pat).Some? <==> exists i :: 0 <= i < |routes| && routes[i].path == pat
  {
    if routes != [] {
      var front := routes[..|routes| - 1];
      LatestSome(front, pat);
      if i :| 0 <= i < |routes| && routes[i].path == pat {
        assert i < |front| ==> front[i].path == pat;
      }
      if Latest(front, pat).Some? {
        var i :| 0 <= i < |front| && front[i].path == pat;
        assert routes[i].path == pat;
      }
    }
  }

  /** Some route conflicts with a path. */
  ghost predicate AnyConflict(routes: seq<Route>, path: string) {
    exists i :: 0 <= i < |routes| && Conflict(routes[i].path, path)
  }

  lemma StoredConflict(routes: seq<Route>, path: string)
    requires Paths(routes) && Register(routes).Some?
    ensures Blocked(Register(routes).value, path) <==> AnyConflict(routes, path)
  {
    hide Conflict, Has, Register, Latest;
    var t := Register(routes).value;
    if Blocked(t, path) {
      var pat, h :| Has(t, pat, h) && Conflict(pat, path);
      RunHas(routes, pat, h);
      LatestSome(routes, pat);
    }
    if AnyConflict(routes, path) {
      var i :| 0 <= i < |routes| && Conflict(routes[i].path, path);
      LatestSome(routes, routes[i].path);
      var h := Latest(routes, routes[i].path).value;
      RunHas(routes, routes[i].path, h);
      BlockedBy(t, path, routes[i].path, h);
    }
  }

  /** Something is wrong with a route, or between it and an earlier one. */
  ghost predicate Wrong(routes: seq<Route>, j: nat)
    requires j < |routes|
  {
    Malformed(routes[j].path) || exists i :: 0 <= i < j && Conflict(routes[i].path, routes[j].path)
  }

  /**
    * A run of registrations panics exactly when some pattern is malformed, or two of them,
    * equal up to some place, go on there with different segments of which one begins with a
    * wildcard.
    */
  lemma {:induction false} RegisterFails(routes: seq<Route>)
    requires Paths(routes)
    ensures Register(routes).None? <==> exists j :: 0 <= j < |routes| && Wrong(routes, j)
  {
    hide Conflict, Malformed, AddRoute, Grown, Blocked;
    if routes != [] {
      var n := |routes| - 1;
      var front, last := routes[..n], routes[n];
      RegisterFails(front);
      forall j | 0 <= j < n ensures Wrong(front, j) == Wrong(routes, j) {
        WrongFront(routes, n, j);
      }
      if Register(front).Some? {
        RunGrown(front);
        AddRouteFails(Register(front).value, last.path, last.handle);
        StoredConflict(front, last.path);
        WrongLast(routes);
      } else {
        var j :| 0 <= j < |front| && Wrong(front, j);
        assert Wrong(routes, j);
      }
    }
  }

  lemma WrongFront(routes: seq<Route>, n: nat, j: nat)
    requires j < n <= |routes|
    ensures Wrong(routes[..n], j) == Wrong(routes, j)
  {
    hide Conflict, Malformed;
    if Wrong(routes, j) && !Malformed(routes[j].path) {
      var i :| 0 <= i < j && Conflict(routes[i].path, routes[j].path);
      assert routes[..n][i] == routes[i];
    }
  }

  lemma WrongLast(routes: seq<Route>)
    requires routes != []
    ensures var n := |routes| - 1;
      Wrong(routes, n) <==> Malformed(routes[n].path) || AnyConflict(routes[..n], routes[n].path)
  {
    hide Conflict, Malformed;
    var n := |routes| - 1;
    if Wrong(routes, n) && !Malformed(routes[n].path) {
      var i :| 0 <= i < n && Conflict(routes[i].path, routes[n].path);
      assert routes[..n][i] == routes[i];
    }
  }
}
