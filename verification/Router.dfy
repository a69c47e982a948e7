/**
  * The prefix tree of `cement/httprouter/tree.go`, for static and `:param` routes: what it
  * stores, and that registration and lookup agree.
  */
module Router {
  import opened Options
  import opened Slashes

  datatype Kind = Static | Root | Param

  /** A node; `handle` stands for a request handler. */
  datatype Node = Node(path: string, wildChild: bool, kind: Kind, maxParams: nat, indices: string,
                       children: seq<Node>, handle: Option<int>, priority: nat)

  const EMPTY := Node("", false, Static, 0, "", [], None, 0)

  // ----- Patterns -----

  /** The number of wildcards of a pattern. */
  function Wilds(pat: string): nat {
    if pat == "" then 0 else (if pat[0] == ':' then 1 else 0) + Wilds(pat[1..])
  }

  /** The octets that `countParams` counts. */
  function Marks(path: string): nat {
    if path == "" then 0 else (if path[0] == ':' || path[0] == '*' then 1 else 0) + Marks(path[1..])
  }

  /** The count as it fits a byte: from 255 on it stops. */
  function Counted(path: string): nat {
    if Marks(path) >= 255 then 255 else Marks(path)
  }

  /** A route without catch-all, whose wildcards the count can hold. */
  predicate Plain(path: string) {
    path != "" && '*' !in path && Wilds(path) <= 255
  }

  lemma {:induction false} MarksAreWilds(path: string)
    requires '*' !in path
    ensures Marks(path) == Wilds(path)
  {
    if path != "" {
      assert '*' !in path[1..];
      MarksAreWilds(path[1..]);
    }
  }

  /** The length of what comes before the first wildcard. */
  function WildAt(s: string): (n: nat)
    ensures n <= |s| && (n < |s| ==> s[n] == ':') && forall i :: 0 <= i < n ==> s[i] != ':'
  {
    if s == "" || s[0] == ':' then 0 else 1 + WildAt(s[1..])
  }

  // ----- What a tree stores -----

  /** The handle registered for a pattern, whose text is spelled by the paths of the nodes. */
  ghost predicate Has(n: Node, pat: string, h: int)
    decreases n
  {
    n.path <= pat &&
    if |pat| == |n.path| then n.handle == Some(h)
    else exists i :: 0 <= i < |n.children| && Has(n.children[i], pat[|n.path|..], h)
  }

  /** The shape that registration keeps. */
  ghost predicate Formed(n: Node)
    decreases n
  {
    && (if n.kind == Param then
          |n.path| >= 2 && n.path[0] == ':' && ':' !in n.path[1..] && '/' !in n.path && !n.wildChild
        else ':' !in n.path)
    && (if n.wildChild then |n.children| == 1 && n.children[0].kind == Param && n.indices == ""
        else if n.kind == Param then
          && |n.children| <= 1 && (n.children == [] ==> n.indices == "")
          && forall i :: 0 <= i < |n.children| ==> StartsWith(n.children[i], '/')
        else Indexed(n))
    && (forall i :: 0 <= i < |n.children| ==> n.children[i].kind != Root && Formed(n.children[i]))
  }

  ghost predicate StartsWith(n: Node, c: char) {
    n.kind != Param && n.path != "" && n.path[0] == c
  }

  /** The index string lists the first bytes of the children, which are different ones. */
  ghost predicate Indexed(n: Node) {
    && |n.indices| == |n.children|
    && (forall i :: 0 <= i < |n.children| ==> StartsWith(n.children[i], n.indices[i]))
    && (forall i, j :: 0 <= i < j < |n.indices| ==> n.indices[i] != n.indices[j])
  }

  // ----- Registration -----

  function Greater(a: nat, b: nat): nat {
    if a < b then b else a
  }

  function CommonLen(a: string, b: string): (n: nat)
    ensures n <= |a| && n <= |b| && a[..n] == b[..n]
    ensures n < |a| && n < |b| ==> a[n] != b[n]
  {
    if a == "" || b == "" || a[0] != b[0] then 0 else
      var n := CommonLen(a[1..], b[1..]);
      assert a[..n + 1] == [a[0]] + a[1..][..n] && b[..n + 1] == [b[0]] + b[1..][..n];
      n + 1
  }

  /** Where a byte stands in an index string, or its length. */
  function IndexOf(s: string, c: char): (k: nat)
    ensures k <= |s| && (k < |s| ==> s[k] == c) && forall i :: 0 <= i < k ==> s[i] != c
  {
    if s == "" || s[0] == c then 0 else 1 + IndexOf(s[1..], c)
  }

  function MostParams(ns: seq<Node>): nat {
    if ns == [] then 0 else Greater(ns[0].maxParams, MostParams(ns[1..]))
  }

  /** The place that a child of priority `prio` moves up to from `pos`. */
  function MovesTo(ns: seq<Node>, pos: nat, prio: nat): (k: nat)
    requires pos <= |ns|
    ensures k <= pos && (forall i :: k <= i < pos ==> ns[i].priority < prio) && (k > 0 ==> ns[k - 1].priority >= prio)
  {
    if pos > 0 && ns[pos - 1].priority < prio then MovesTo(ns, pos - 1, prio) else pos
  }

  function Moved<T>(s: seq<T>, pos: nat, k: nat, x: T): (r: seq<T>)
    requires k <= pos < |s|
    ensures |r| == |s|
  {
    s[..k] + [x] + s[k..pos] + s[pos + 1..]
  }

  /** The child at `pos` becomes `c` and moves up by its priority, its index byte with it. */
  function Promoted(n: Node, pos: nat, c: Node): Node
    requires pos < |n.children| == |n.indices|
  {
    var k := MovesTo(n.children, pos, c.priority);
    n.(children := Moved(n.children, pos, k, c), indices := Moved(n.indices, pos, k, n.indices[pos]))
  }

  /**
    * The rest of a path below a node that has no children; `None` where `insertChild` panics.
    * After `np` wildcards what is left is taken as it stands.
    */
  function InsertChild(n: Node, np: nat, path: string, h: int): Option<Node>
    requires np <= Wilds(path)
    decreases |path|
  {
    if np == 0 then Some(n.(path := path, handle := Some(h)))
    else
      WildsAt(path);
      var i := WildAt(path);
      var seg := SegLen(path[i..]);
      if ':' in path[i + 1..i + seg] || n.children != [] || seg < 2 then None
      else
        var name, rest := path[i..i + seg], path[i + seg..];
        var n1 := if i > 0 then n.(path := path[..i]) else n;
        WildsName(path, i, seg);
        if rest == "" then
          Some(n1.(wildChild := true, children := [Node(name, false, Param, np, "", [], Some(h), 1)]))
        else
          match InsertChild(EMPTY.(maxParams := np - 1, priority := 1), np - 1, rest, h)
          case None => None
          case Some(c) => Some(n1.(wildChild := true, children := [Node(name, false, Param, np, "", [c], None, 1)]))
  }

  lemma {:induction false} WildsConcat(a: string, b: string)
    ensures Wilds(a + b) == Wilds(a) + Wilds(b)
  {
    if a == "" {
      assert a + b == b;
    } else {
      assert (a + b)[1..] == a[1..] + b;
      WildsConcat(a[1..], b);
    }
  }

  lemma {:induction false} WildsNone(s: string)
    ensures Wilds(s) == 0 <==> ':' !in s
  {
    if s != "" {
      WildsNone(s[1..]);
      assert s == [s[0]] + s[1..];
    }
  }

  lemma WildsAt(path: string)
    ensures Wilds(path) > 0 ==> WildAt(path) < |path| && SegLen(path[WildAt(path)..]) > 0
  {
    WildsNone(path);
  }

  lemma WildsName(path: string, i: nat, seg: nat)
    requires i < |path| && path[i] == ':' && 0 < seg <= |path| - i && ':' !in path[..i] && ':' !in path[i + 1..i + seg]
    ensures Wilds(path[i + seg..]) == Wilds(path) - 1 && |path[i + seg..]| < |path| && Wilds(path) > 0
  {
    var a, b, c, d := path[..i], path[i..i + 1], path[i + 1..i + seg], path[i + seg..];
    assert path == a + (b + (c + d));
    WildsConcat(a, b + (c + d));
    WildsConcat(b, c + d);
    WildsConcat(c, d);
    WildsNone(a);
    WildsNone(c);
    assert Wilds(b) == 1;
  }

  /** A child for what no child begins with yet; a wildcard goes below the node itself. */
  function AddChild(n: Node, rest: string, h: int): Option<Node>
    requires rest != "" && |n.indices| == |n.children|
  {
    var np := Wilds(rest);
    if rest[0] == ':' then InsertChild(n, np, rest, h)
    else
      match InsertChild(EMPTY.(maxParams := np, priority := 1), np, rest, h)
      case None => None
      case Some(c) =>
        Some(Promoted(n.(indices := n.indices + [rest[0]], children := n.children + [c]), |n.children|, c))
  }

  /** The path of a wildcard node is the whole next segment. */
  predicate Fits(wild: string, rest: string) {
    wild <= rest && (|wild| == |rest| || rest[|wild|] == '/')
  }

  /** A node split in two, the lower part keeping what the node had. */
  function SplitAt(n: Node, i: nat, bound: nat): Node
    requires i < |n.path|
  {
    var low := Node(n.path[i..], n.wildChild, Static, MostParams(n.children), n.indices, n.children, n.handle,
                    n.priority);
    Node(n.path[..i], false, n.kind, Greater(n.maxParams, bound), [n.path[i]], [low], None, n.priority + 1)
  }

  /**
    * The walk down the tree. A node is counted when the walk enters it, and its `maxParams`
    * raised to the wildcards of the path, a wildcard node's own among them.
    */
  function Walk(n: Node, path: string, h: int): Option<Node>
    requires Formed(n) && (n.kind == Param ==> Fits(n.path, path))
    decreases n
  {
    var i := CommonLen(path, n.path);
    if i < |n.path| then
      var n1 := SplitAt(n, i, Wilds(path));
      if i == |path| then Some(n1.(handle := Some(h))) else AddChild(n1, path[i..], h)
    else
      var n0 := n.(priority := n.priority + 1, maxParams := Greater(n.maxParams, Wilds(path)));
      if i == |path| then Some(n0.(handle := Some(h)))
      else
        var rest := path[i..];
        if n.wildChild then
          if Fits(n.children[0].path, rest) then
            match Walk(n.children[0], rest, h)
            case None => None
            case Some(c) => Some(n0.(children := [c]))
          else None
        else if n.kind == Param && rest[0] == '/' && |n.children| == 1 then
          match Walk(n.children[0], rest, h)
          case None => None
          case Some(c) => Some(n0.(children := [c]))
        else
          var k := IndexOf(n.indices, rest[0]);
          WalkIndexed(n, path, i);
          if k < |n.indices| then
            match Walk(n.children[k], rest, h)
            case None => None
            case Some(c) => Some(Promoted(n0, k, c))
          else AddChild(n0, rest, h)
  }

  /** Where the walk looks for a byte, the node has an index byte for every child. */
  lemma WalkIndexed(n: Node, path: string, i: nat)
    requires Formed(n) && (n.kind == Param ==> Fits(n.path, path)) && !n.wildChild
    requires i == CommonLen(path, n.path) == |n.path| < |path|
    requires !(n.kind == Param && path[i] == '/' && |n.children| == 1)
    ensures |n.indices| == |n.children|
    ensures forall k :: 0 <= k < |n.children| ==> n.children[k].kind == Static && Formed(n.children[k])
  {
  }

  /**
    * Registration at the top of a tree. The walk passes on how many wildcards the rest of the
    * path has, which for a plain path is what is left of the count.
    */
  function AddRoute(n: Node, path: string, h: int): Option<Node>
    requires Formed(n) && n.kind != Param && '*' !in path && (n.path != "" || n.children != [] ==> Plain(path))
  {
    if n.path != "" || n.children != [] then Walk(n, path, h)
    else
      MarksAreWilds(path);
      match InsertChild(n.(priority := n.priority + 1), Counted(path), path, h)
      case None => None
      case Some(r) => Some(r.(kind := Root))
  }

  // ----- Registration keeps the shape -----

  /** A node to which a first path may be given. */
  ghost predicate Blank(n: Node) {
    n.children == [] && n.indices == "" && !n.wildChild && n.kind != Param && ':' !in n.path
  }

  /** The parts of a path with a wildcard: what is before it, its segment, what is after it. */
  ghost predicate Segments(path: string, pre: string, name: string, rest: string) {
    && path == pre + name + rest && ':' !in pre && |name| >= 2 && name[0] == ':' && ':' !in name[1..] && '/' !in name
    && (rest == "" || rest[0] == '/') && Wilds(rest) == Wilds(path) - 1
  }

  lemma InsertParts(n: Node, np: nat, path: string, h: int) returns (pre: string, name: string, rest: string)
    requires 0 < np <= Wilds(path) && InsertChild(n, np, path, h).Some?
    ensures Segments(path, pre, name, rest) && n.children == []
    ensures var r := InsertChild(n, np, path, h).value;
      && |r.children| == 1
      && r == n.(path := if pre == "" then n.path else pre, wildChild := true, children := r.children)
      && (if rest == "" then r.children[0] == Node(name, false, Param, np, "", [], Some(h), 1)
          else
            && InsertChild(EMPTY.(maxParams := np - 1, priority := 1), np - 1, rest, h).Some?
            && r.children[0] == Node(name, false, Param, np, "",
                                     [InsertChild(EMPTY.(maxParams := np - 1, priority := 1), np - 1, rest, h).value],
                                     None, 1))
  {
    hide *;
    InsertIs(n, np, path, h);
    var i := WildAt(path);
    var seg := SegLen(path[i..]);
    SegmentsAt(path, i, seg);
    pre, name, rest := path[..i], path[i..i + seg], path[i + seg..];
  }

  lemma SegmentsAt(path: string, i: nat, seg: nat)
    requires i == WildAt(path) < |path| && seg == SegLen(path[i..]) >= 2 && ':' !in path[i + 1..i + seg]
    ensures Segments(path, path[..i], path[i..i + seg], path[i + seg..])
  {
    hide *;
    NoWildBefore(path, i);
    WildsName(path, i, seg);
    NoSlashIn(path[i..], seg);
    CutHere(path, i, seg);
    SegmentsMake(path, path[..i], path[i..i + seg], path[i + seg..]);
  }

  lemma NoWildBefore(path: string, i: nat)
    requires i == WildAt(path) < |path|
    ensures ':' !in path[..i] && path[i] == ':'
  {
  }

  lemma NoSlashIn(s: string, seg: nat)
    requires seg == SegLen(s)
    ensures seg <= |s| && '/' !in s[..seg] && (seg < |s| ==> s[seg] == '/')
  {
  }

  lemma CutHere(path: string, i: nat, seg: nat)
    requires i + seg <= |path| && seg >= 1
    ensures path == path[..i] + path[i..i + seg] + path[i + seg..] && path[i..i + seg] == path[i..][..seg]
    ensures path[i..i + seg][1..] == path[i + 1..i + seg] && path[i..i + seg][0] == path[i]
    ensures path[i + seg..] == path[i..][seg..]
  {
  }

  lemma SegmentsMake(path: string, pre: string, name: string, rest: string)
    requires path == pre + name + rest && ':' !in pre && |name| >= 2 && name[0] == ':' && ':' !in name[1..]
    requires '/' !in name
    requires (rest == "" || rest[0] == '/') && Wilds(rest) == Wilds(path) - 1
    ensures Segments(path, pre, name, rest)
  {
  }

  /** The first wildcard of a path that is put below a node. */
  lemma InsertIs(n: Node, np: nat, path: string, h: int)
    requires 0 < np <= Wilds(path) && InsertChild(n, np, path, h).Some?
    ensures var i := WildAt(path);
      && i < |path| && var seg := SegLen(path[i..]);
      && seg >= 2 && i + seg <= |path| && ':' !in path[i + 1..i + seg] && n.children == []
      && var r, rest := InsertChild(n, np, path, h).value, path[i + seg..];
      && np - 1 <= Wilds(rest) == Wilds(path) - 1 && |r.children| == 1
      && r == n.(path := if path[..i] == "" then n.path else path[..i], wildChild := true, children := r.children)
      && (if rest == "" then r.children[0] == Node(path[i..i + seg], false, Param, np, "", [], Some(h), 1)
          else
            && InsertChild(EMPTY.(maxParams := np - 1, priority := 1), np - 1, rest, h).Some?
            && r.children[0] == Node(path[i..i + seg], false, Param, np, "",
                                     [InsertChild(EMPTY.(maxParams := np - 1, priority := 1), np - 1, rest, h).value],
                                     None, 1))
  {
    hide Wilds, WildAt, SegLen;
    WildsAt(path);
    var i := WildAt(path);
    var seg := SegLen(path[i..]);
    WildsName(path, i, seg);
  }

  lemma {:induction false} InsertFormed(n: Node, np: nat, path: string, h: int)
    requires Blank(n) && Wilds(path) == np && InsertChild(n, np, path, h).Some?
    ensures var r := InsertChild(n, np, path, h).value;
      && Formed(r) && r.kind == n.kind && r.priority == n.priority
      && (path != "" && path[0] != ':' ==> StartsWith(r, path[0]))
    decreases |path|
  {
    if np == 0 {
      WildsNone(path);
    } else {
      InsertWildFormed(n, np, path, h);
    }
  }

  lemma InsertWildFormed(n: Node, np: nat, path: string, h: int)
    requires Blank(n) && Wilds(path) == np > 0 && InsertChild(n, np, path, h).Some?
    ensures var r := InsertChild(n, np, path, h).value;
      && Formed(r) && r.kind == n.kind && r.priority == n.priority
      && (path != "" && path[0] != ':' ==> StartsWith(r, path[0]))
    decreases |path|, 0
  {
    hide *;
    var pre, name, rest := InsertParts(n, np, path, h);
    var r, below := InsertChild(n, np, path, h).value, EMPTY.(maxParams := np - 1, priority := 1);
    SegmentParts(path, pre, name, rest);
    if rest != "" {
      BlankEmpty(np - 1);
      InsertFormed(below, np - 1, rest, h);
    }
    ParamFormed(r.children[0], name);
    WildFormed(n, r, pre);
    if pre != "" {
      assert path[0] == pre[0];
      Starts(r, path[0]);
    }
  }

  lemma SegmentParts(path: string, pre: string, name: string, rest: string)
    requires Segments(path, pre, name, rest)
    ensures path == pre + name + rest && ':' !in pre && |name| >= 2 && name[0] == ':' && ':' !in name[1..]
    ensures '/' !in name
    ensures (rest == "" || rest[0] == '/') && Wilds(rest) == Wilds(path) - 1 && |rest| < |path|
    ensures pre == "" ==> path[0] == ':'
  {
  }

  lemma BlankEmpty(m: nat)
    ensures Blank(EMPTY.(maxParams := m, priority := 1)) && EMPTY.kind == Static && EMPTY.handle == None
  {
  }

  lemma Starts(n: Node, c: char)
    requires n.kind != Param && n.path != "" && n.path[0] == c
    ensures StartsWith(n, c)
  {
  }

  lemma ParamFormed(p: Node, name: string)
    requires p.path == name && |name| >= 2 && name[0] == ':' && ':' !in name[1..] && '/' !in name
    requires p.kind == Param && !p.wildChild && |p.children| <= 1 && (p.children == [] ==> p.indices == "")
    requires |p.children| == 1 ==>
      StartsWith(p.children[0], '/') && p.children[0].kind == Static && Formed(p.children[0])
    ensures Formed(p)
  {
  }

  lemma WildFormed(n: Node, r: Node, pre: string)
    requires Blank(n) && ':' !in pre && |r.children| == 1 && r.children[0].kind == Param && Formed(r.children[0])
    requires r == n.(path := if pre == "" then n.path else pre, wildChild := true, children := r.children)
    ensures Formed(r) && r.kind != Param
  {
  }

  lemma MovedAt<T>(s: seq<T>, pos: nat, k: nat, x: T, i: nat)
    requires k <= pos < |s| && i < |s|
    ensures Moved(s, pos, k, x)[i] == if i < k then s[i] else if i == k then x else if i <= pos then s[i - 1] else s[i]
  {
  }

  /** Where the child at `i` comes from. */
  function Origin(pos: nat, k: nat, i: nat): nat
    requires k <= pos
  {
    if i < k || i > pos then i else if i == k then pos else i - 1
  }

  lemma PromotedFormed(n: Node, pos: nat, c: Node)
    requires Formed(c) && c.kind == Static && pos < |n.children| && Indexed(n) && StartsWith(c, n.indices[pos])
    requires ':' !in n.path && n.kind != Param && !n.wildChild
    requires forall i :: 0 <= i < |n.children| && i != pos ==> n.children[i].kind != Root && Formed(n.children[i])
    ensures Formed(Promoted(n, pos, c))
  {
    hide Formed, Promoted, MovesTo, StartsWith;
    PromotedParts(n, pos, c);
    FormedIndexed(Promoted(n, pos, c));
  }

  /** The children after a move are the old ones and the new one, each beside its byte. */
  lemma PromotedParts(n: Node, pos: nat, c: Node)
    requires pos < |n.children| && Indexed(n) && StartsWith(c, n.indices[pos])
    ensures var r, k := Promoted(n, pos, c), MovesTo(n.children, pos, c.priority);
      && Indexed(r) && r == n.(children := r.children, indices := r.indices)
      && |r.children| == |n.children| && r.children[k] == c
      && (forall i :: 0 <= i < |r.children| && i != k ==> (
            && 0 <= Origin(pos, k, i) < |n.children| && Origin(pos, k, i) != pos
            && r.children[i] == n.children[Origin(pos, k, i)]))
  {
    var r, k := Promoted(n, pos, c), MovesTo(n.children, pos, c.priority);
    hide MovesTo;
    forall i | 0 <= i < |n.children|
      ensures r.indices[i] == n.indices[Origin(pos, k, i)]
      ensures r.children[i] == if i == k then c else n.children[Origin(pos, k, i)]
    {
      MovedAt(n.children, pos, k, c, i);
      MovedAt(n.indices, pos, k, n.indices[pos], i);
    }
    hide Promoted, Moved;
    MovedIndexed(n, r, pos, k, c);
  }

  lemma MovedIndexed(n: Node, r: Node, pos: nat, k: nat, c: Node)
    requires k <= pos < |n.children| && Indexed(n) && StartsWith(c, n.indices[pos])
    requires |r.children| == |r.indices| == |n.children|
    requires forall i :: 0 <= i < |n.children| ==> r.indices[i] == n.indices[Origin(pos, k, i)]
    requires forall i :: 0 <= i < |n.children| ==> r.children[i] == if i == k then c else n.children[Origin(pos, k, i)]
    ensures Indexed(r)
  {
    hide StartsWith;
    forall i, j | 0 <= i < j < |r.indices|
      ensures r.indices[i] != r.indices[j]
    {
      OriginsDiffer(pos, k, i, j);
      var a, b := Origin(pos, k, i), Origin(pos, k, j);
      assert n.indices[a] != n.indices[b];
    }
  }

  lemma OriginsDiffer(pos: nat, k: nat, i: nat, j: nat)
    requires k <= pos && i != j
    ensures Origin(pos, k, i) != Origin(pos, k, j)
  {
  }

  lemma FormedIndexed(n: Node)
    requires Indexed(n) && ':' !in n.path && n.kind != Param && !n.wildChild
    requires forall i :: 0 <= i < |n.children| ==> n.children[i].kind != Root && Formed(n.children[i])
    ensures Formed(n)
  {
  }

  lemma AddChildFormed(n: Node, rest: string, h: int)
    requires rest != "" && Formed(n) && !n.wildChild && |n.indices| == |n.children| && AddChild(n, rest, h).Some?
    requires n.kind == Param ==> rest[0] == '/' && n.children == []
    requires forall i :: 0 <= i < |n.indices| ==> n.indices[i] != rest[0]
    ensures Formed(AddChild(n, rest, h).value) && AddChild(n, rest, h).value.kind == n.kind
    ensures AddChild(n, rest, h).value.path == n.path && AddChild(n, rest, h).value.priority == n.priority
  {
    hide *;
    AddIs(n, rest, h);
    var np := Wilds(rest);
    if rest[0] == ':' {
      FormedParts(n);
      InsertAt(n, np, rest, h);
    } else {
      BlankEmpty(np);
      InsertFormed(EMPTY.(maxParams := np, priority := 1), np, rest, h);
      var c := InsertChild(EMPTY.(maxParams := np, priority := 1), np, rest, h).value;
      var n1 := Appended(n, rest[0], c);
      AppendedIs(n, rest[0], c);
      FormedParts(n);
      if n.kind == Param {
        PromotedOne(n1, c);
        ParamFormed(n1, n.path);
      } else {
        AppendIndexed(n, n1, c, rest[0]);
        PromotedFormed(n1, |n.children|, c);
        PromotedParts(n1, |n.children|, c);
      }
    }
  }

  function Appended(n: Node, b: char, c: Node): Node {
    n.(indices := n.indices + [b], children := n.children + [c])
  }

  lemma AppendedIs(n: Node, b: char, c: Node)
    ensures Appended(n, b, c) == n.(indices := n.indices + [b], children := n.children + [c])
    ensures forall i :: 0 <= i < |n.children| ==> Appended(n, b, c).children[i] == n.children[i]
  {
  }

  lemma AddIs(n: Node, rest: string, h: int)
    requires rest != "" && |n.indices| == |n.children|
    ensures rest[0] == ':' ==> AddChild(n, rest, h) == InsertChild(n, Wilds(rest), rest, h)
    ensures rest[0] != ':' ==>
      var o := InsertChild(EMPTY.(maxParams := Wilds(rest), priority := 1), Wilds(rest), rest, h);
      if o.None? then AddChild(n, rest, h) == None
      else AddChild(n, rest, h) == Some(Promoted(Appended(n, rest[0], o.value), |n.children|, o.value))
  {
    hide InsertChild, Wilds, Promoted;
  }

  lemma FormedParts(n: Node)
    requires Formed(n)
    ensures n.kind != Param ==> ':' !in n.path
    ensures n.kind == Param ==>
      |n.path| >= 2 && n.path[0] == ':' && ':' !in n.path[1..] && '/' !in n.path && !n.wildChild
    ensures !n.wildChild && n.kind != Param ==> Indexed(n)
    ensures forall i :: 0 <= i < |n.children| ==> n.children[i].kind != Root && Formed(n.children[i])
  {
  }

  lemma PromotedOne(n: Node, c: Node)
    requires |n.children| == |n.indices| == 1 && n.children[0] == c
    ensures Promoted(n, 0, c) == n
  {
  }

  lemma InsertAt(n: Node, np: nat, path: string, h: int)
    requires Formed(n) && n.kind != Param && !n.wildChild && Wilds(path) == np && InsertChild(n, np, path, h).Some?
    requires path != "" && path[0] == ':'
    ensures Formed(InsertChild(n, np, path, h).value) && InsertChild(n, np, path, h).value.kind == n.kind
    ensures InsertChild(n, np, path, h).value.path == n.path && InsertChild(n, np, path, h).value.priority == n.priority
  {
    var pre, name, rest := InsertParts(n, np, path, h);
    InsertFormed(n, np, path, h);
  }

  lemma AppendIndexed(n: Node, n1: Node, c: Node, b: char)
    requires Indexed(n) && StartsWith(c, b) && (forall i :: 0 <= i < |n.indices| ==> n.indices[i] != b)
    requires n1 == n.(indices := n.indices + [b], children := n.children + [c])
    ensures Indexed(n1) && |n1.indices| == |n.children| + 1 && n1.indices[|n.children|] == b
  {
  }

  lemma SplitFormed(n: Node, i: nat, bound: nat)
    requires Formed(n) && n.kind != Param && i < |n.path|
    ensures Formed(SplitAt(n, i, bound))
  {
    var low := Node(n.path[i..], n.wildChild, Static, MostParams(n.children), n.indices, n.children, n.handle,
                    n.priority);
    assert Formed(low);
    assert SplitAt(n, i, bound).children == [low];
  }

  /** The path begins with the same byte. */
  ghost predicate StartsLike(n: Node, m: Node) {
    n.path != "" && m.path != "" && n.path[0] == m.path[0]
  }

  function Entered(n: Node, path: string): Node {
    n.(priority := n.priority + 1, maxParams := Greater(n.maxParams, Wilds(path)))
  }

  /** Where the walk of a path goes on from a node. */
  datatype Turn = Split(i: nat) | Here | Below | Clash | Child(k: nat) | New

  function Turns(n: Node, path: string): Turn
    requires Formed(n)
  {
    var i := CommonLen(path, n.path);
    if i < |n.path| then Split(i)
    else if i == |path| then Here
    else if n.wildChild then if Fits(n.children[0].path, path[i..]) then Below else Clash
    else if n.kind == Param && path[i] == '/' && |n.children| == 1 then Below
    else if IndexOf(n.indices, path[i]) < |n.indices| then Child(IndexOf(n.indices, path[i]))
    else New
  }

  function WithOnly(n: Node, c: Option<Node>): Option<Node> {
    if c.None? then None else Some(n.(children := [c.value]))
  }

  function WithChild(n: Node, k: nat, c: Option<Node>): Option<Node>
    requires k < |n.children| == |n.indices|
  {
    if c.None? then None else Some(Promoted(n, k, c.value))
  }

  lemma StepSplit(n: Node, path: string, h: int)
    requires Formed(n) && (n.kind == Param ==> Fits(n.path, path)) && Turns(n, path).Split?
    ensures var j := Turns(n, path).i;
      && j < |n.path| && j <= |path| && j == CommonLen(path, n.path) && n.kind != Param
      && Walk(n, path, h) == (if j == |path| then Some(SplitAt(n, j, Wilds(path)).(handle := Some(h)))
                              else AddChild(SplitAt(n, j, Wilds(path)), path[j..], h))
  {
    hide Wilds, AddChild, Promoted, SplitAt;
  }

  lemma StepHere(n: Node, path: string, h: int)
    requires Formed(n) && (n.kind == Param ==> Fits(n.path, path))
    requires (Turns(n, path) == Here || Turns(n, path) == Clash)
    ensures Turns(n, path) == Here ==> path == n.path && Walk(n, path, h) == Some(Entered(n, path).(handle := Some(h)))
    ensures Turns(n, path) == Clash ==> Walk(n, path, h) == None
  {
    hide Wilds, AddChild, Promoted, SplitAt;
    var i := CommonLen(path, n.path);
    assert path[..i] == n.path[..i];
  }

  lemma PathFirst(n: Node, path: string)
    requires CommonLen(path, n.path) == |n.path|
    ensures n.path <= path
  {
    assert n.path[..|n.path|] == n.path;
  }

  lemma StepBelow(n: Node, path: string, h: int)
    requires Formed(n) && (n.kind == Param ==> Fits(n.path, path)) && Turns(n, path) == Below
    ensures |n.path| < |path| && n.path <= path && |n.children| == 1 && Formed(n.children[0])
    ensures n.children[0].kind == Param ==> Fits(n.children[0].path, path[|n.path|..])
    ensures Walk(n, path, h) == WithOnly(Entered(n, path), Walk(n.children[0], path[|n.path|..], h))
    ensures n.wildChild || (n.kind == Param && path[|n.path|] == '/' && StartsWith(n.children[0], '/'))
  {
    hide Wilds, AddChild, Promoted, SplitAt;
    PathFirst(n, path);
  }

  lemma StepChild(n: Node, path: string, h: int)
    requires Formed(n) && (n.kind == Param ==> Fits(n.path, path)) && Turns(n, path).Child?
    ensures var k := Turns(n, path).k;
      && |n.path| < |path| && n.path <= path && n.kind != Param && !n.wildChild && Indexed(n)
      && k < |n.children| == |n.indices|
      && n.children[k].kind == Static && Formed(n.children[k]) && n.indices[k] == path[|n.path|]
      && Walk(n, path, h) == WithChild(Entered(n, path), k, Walk(n.children[k], path[|n.path|..], h))
  {
    hide Wilds, AddChild, Promoted, SplitAt;
    PathFirst(n, path);
    WalkIndexed(n, path, |n.path|);
  }

  lemma StepNew(n: Node, path: string, h: int)
    requires Formed(n) && (n.kind == Param ==> Fits(n.path, path)) && Turns(n, path) == New
    ensures |n.path| < |path| && n.path <= path && !n.wildChild && |n.indices| == |n.children|
    ensures path[|n.path|] !in n.indices
    ensures n.kind == Param ==> path[|n.path|] == '/' && n.children == []
    ensures Walk(n, path, h) == AddChild(Entered(n, path), path[|n.path|..], h)
  {
    hide Wilds, AddChild, Promoted, SplitAt;
    PathFirst(n, path);
    WalkIndexed(n, path, |n.path|);
  }

  /** What registration keeps of a node. */
  ghost predicate Kept(n: Node, path: string, r: Node) {
    && Formed(r) && r.kind == n.kind && r.priority == n.priority + 1
    && (path != "" && n.path != "" && n.path[0] == path[0] ==> StartsLike(r, n))
  }

  lemma KeptSplit(n: Node, path: string, i: nat, h: int)
    requires Formed(n) && n.kind != Param && i == CommonLen(path, n.path) < |n.path|
    ensures i == |path| ==> Kept(n, path, SplitAt(n, i, Wilds(path)).(handle := Some(h)))
    ensures i < |path| && AddChild(SplitAt(n, i, Wilds(path)), path[i..], h).Some? ==>
      Kept(n, path, AddChild(SplitAt(n, i, Wilds(path)), path[i..], h).value)
  {
    hide Wilds, AddChild, SplitAt;
    var n1 := SplitAt(n, i, Wilds(path));
    SplitFormed(n, i, Wilds(path));
    SplitIs(n, i, Wilds(path));
    if i < |path| && AddChild(n1, path[i..], h).Some? {
      AddChildFormed(n1, path[i..], h);
    } else {
      FormedHandle(n1, h);
    }
  }

  lemma FormedHandle(n: Node, h: int)
    requires Formed(n)
    ensures Formed(n.(handle := Some(h)))
  {
  }

  lemma EnteredFormed(n: Node, path: string)
    requires Formed(n)
    ensures var r := Entered(n, path);
      && Formed(r) && r.kind == n.kind && r.priority == n.priority + 1 && r.path == n.path && r.children == n.children
      && r.indices == n.indices && r.wildChild == n.wildChild && r.handle == n.handle
  {
    hide Wilds;
  }

  lemma KeptBelow(n: Node, path: string, c: Node)
    requires Formed(n) && |n.children| == 1 && (n.wildChild || n.kind == Param)
    requires Formed(c) && c.kind == n.children[0].kind && (n.wildChild || StartsLike(c, n.children[0]))
    ensures Kept(n, path, Entered(n, path).(children := [c]))
  {
    hide Wilds;
  }

  lemma KeptChild(n: Node, path: string, k: nat, c: Node)
    requires Formed(n) && n.kind != Param && !n.wildChild && k < |n.children| == |n.indices| && n.path <= path
    requires Formed(c) && c.kind == Static && StartsLike(c, n.children[k])
    ensures Kept(n, path, Promoted(Entered(n, path), k, c))
  {
    hide Wilds, Promoted, Entered;
    EnteredFormed(n, path);
    var n0 := Entered(n, path);
    PromotedFormed(n0, k, c);
    PromotedParts(n0, k, c);
  }

  lemma KeptNew(n: Node, path: string, h: int)
    requires Formed(n) && !n.wildChild && |n.indices| == |n.children| && |n.path| < |path| && n.path <= path
    requires path[|n.path|] !in n.indices
    requires (n.kind == Param ==> path[|n.path|] == '/' && n.children == [])
    requires AddChild(Entered(n, path), path[|n.path|..], h).Some?
    ensures Kept(n, path, AddChild(Entered(n, path), path[|n.path|..], h).value)
  {
    hide Wilds, AddChild, Entered;
    EnteredFormed(n, path);
    AddChildFormed(Entered(n, path), path[|n.path|..], h);
  }

  lemma KeptHere(n: Node, path: string, h: int)
    requires Formed(n)
    ensures Kept(n, path, Entered(n, path).(handle := Some(h)))
  {
    hide Wilds, Entered;
    EnteredFormed(n, path);
    FormedHandle(Entered(n, path), h);
  }

  /** Registration keeps the shape of the tree. */
  lemma {:induction false} WalkFormed(n: Node, path: string, h: int)
    requires Formed(n) && (n.kind == Param ==> Fits(n.path, path)) && Walk(n, path, h).Some?
    ensures Kept(n, path, Walk(n, path, h).value)
    decreases n
  {
    hide *;
    var rest := if |n.path| <= |path| then path[|n.path|..] else "";
    match Turns(n, path) {
      case Split(i) =>
        StepSplit(n, path, h);
        KeptSplit(n, path, i, h);
      case Here =>
        StepHere(n, path, h);
        KeptHere(n, path, h);
      case Clash =>
        StepHere(n, path, h);
      case Below =>
        StepBelow(n, path, h);
        OnlySome(Entered(n, path), Walk(n.children[0], rest, h));
        WalkFormed(n.children[0], rest, h);
        KeptParts(n.children[0], rest, Walk(n.children[0], rest, h).value);
        BelowLike(n, rest, Walk(n.children[0], rest, h).value);
        KeptBelow(n, path, Walk(n.children[0], rest, h).value);
      case Child(k) =>
        StepChild(n, path, h);
        EnteredFormed(n, path);
        ChildSome(Entered(n, path), k, Walk(n.children[k], rest, h));
        WalkFormed(n.children[k], rest, h);
        IndexedChild(n, k);
        KeptParts(n.children[k], rest, Walk(n.children[k], rest, h).value);
        KeptChild(n, path, k, Walk(n.children[k], rest, h).value);
      case New =>
        StepNew(n, path, h);
        KeptNew(n, path, h);
    }
  }

  lemma OnlySome(n: Node, c: Option<Node>)
    ensures WithOnly(n, c).Some? <==> c.Some?
    ensures c.Some? ==> WithOnly(n, c) == Some(n.(children := [c.value]))
  {
  }

  lemma ChildSome(n: Node, k: nat, c: Option<Node>)
    requires k < |n.children| == |n.indices|
    ensures WithChild(n, k, c).Some? <==> c.Some?
    ensures c.Some? ==> WithChild(n, k, c) == Some(Promoted(n, k, c.value))
  {
  }

  lemma BelowLike(n: Node, rest: string, c: Node)
    requires |n.children| == 1 && rest != ""
    requires n.wildChild || (rest[0] == '/' && StartsWith(n.children[0], '/'))
    requires n.children[0].path != "" && n.children[0].path[0] == rest[0] ==> StartsLike(c, n.children[0])
    ensures n.wildChild || StartsLike(c, n.children[0])
  {
  }

  lemma KeptParts(n: Node, path: string, r: Node)
    requires Kept(n, path, r)
    ensures Formed(r) && r.kind == n.kind && r.priority == n.priority + 1
    ensures path != "" && n.path != "" && n.path[0] == path[0] ==> StartsLike(r, n)
  {
  }

  lemma IndexedChild(n: Node, k: nat)
    requires Indexed(n) && k < |n.children|
    ensures |n.indices| == |n.children| && n.children[k].path != "" && n.children[k].path[0] == n.indices[k]
  {
  }

  lemma SplitIs(n: Node, i: nat, bound: nat)
    requires i < |n.path|
    ensures var r := SplitAt(n, i, bound);
      && r.path == n.path[..i] && !r.wildChild && r.kind == n.kind && r.indices == [n.path[i]] && |r.children| == 1
      && r.priority == n.priority + 1 && r.handle == None
  {
  }

  // ----- Registration is an update of a map from patterns to handles -----

  ghost predicate HasBelow(ns: seq<Node>, pat: string, h: int) {
    exists i :: 0 <= i < |ns| && Has(ns[i], pat, h)
  }

  lemma HasIs(n: Node, pat: string, h: int)
    ensures Has(n, pat, h) <==>
      n.path <= pat && (if |pat| == |n.path| then n.handle == Some(h) else HasBelow(n.children, pat[|n.path|..], h))
  {
  }

  lemma HasNone(pat: string, h: int)
    ensures !HasBelow([], pat, h)
  {
  }

  lemma HasOne(c: Node, pat: string, h: int)
    ensures HasBelow([c], pat, h) <==> Has(c, pat, h)
  {
    if Has(c, pat, h) {
      assert Has([c][0], pat, h);
    }
  }

  lemma HasHandle(n: Node, h: int, pat: string, h': int)
    ensures Has(n.(handle := Some(h)), pat, h') <==> if pat == n.path then h' == h else Has(n, pat, h')
  {
    hide Has;
    HasIs(n, pat, h');
    HasIs(n.(handle := Some(h)), pat, h');
  }

  /** The pattern that a path below a node spells. */
  function Full(n: Node, path: string): string {
    if path != "" && path[0] == ':' then n.path + path else path
  }

  lemma {:induction false} HasInsert(n: Node, np: nat, path: string, h: int, pat: string, h': int)
    requires n.children == [] && Wilds(path) == np && InsertChild(n, np, path, h).Some?
    requires n.handle == None || (path != "" && path[0] == ':')
    ensures Has(InsertChild(n, np, path, h).value, pat, h') <==>
      (pat == Full(n, path) && h' == h) || (path != "" && path[0] == ':' && pat == n.path && n.handle == Some(h'))
    decreases |path|
  {
    if np == 0 {
      WildsNone(path);
      HasLeaf(n.(path := path, handle := Some(h)), pat, h');
    } else {
      HasInsertWild(n, np, path, h, pat, h');
    }
  }

  lemma HasLeaf(n: Node, pat: string, h: int)
    requires n.children == []
    ensures Has(n, pat, h) <==> pat == n.path && n.handle == Some(h)
  {
    hide Has;
    HasIs(n, pat, h);
    if n.path <= pat {
      HasNone(pat[|n.path|..], h);
    }
  }

  lemma HasOnly(n: Node, pat: string, h: int)
    requires |n.children| == 1
    ensures Has(n, pat, h) <==>
      n.path <= pat && (if |pat| == |n.path| then n.handle == Some(h) else Has(n.children[0], pat[|n.path|..], h))
  {
    hide Has;
    HasIs(n, pat, h);
    assert n.children == [n.children[0]];
    if n.path <= pat {
      HasOne(n.children[0], pat[|n.path|..], h);
    }
  }

  lemma HasInsertWild(n: Node, np: nat, path: string, h: int, pat: string, h': int)
    requires n.children == [] && Wilds(path) == np > 0 && InsertChild(n, np, path, h).Some?
    requires n.handle == None || (path != "" && path[0] == ':')
    ensures Has(InsertChild(n, np, path, h).value, pat, h') <==>
      (pat == Full(n, path) && h' == h) || (path != "" && path[0] == ':' && pat == n.path && n.handle == Some(h'))
    decreases |path|, 0
  {
    hide *;
    var pre, name, rest := InsertParts(n, np, path, h);
    SegmentParts(path, pre, name, rest);
    var r, below := InsertChild(n, np, path, h).value, EMPTY.(maxParams := np - 1, priority := 1);
    var p := r.children[0];
    HasOnly(r, pat, h');
    FullIs(n, path, pre, name, rest);
    if r.path <= pat && |pat| > |r.path| {
      var q := pat[|r.path|..];
      assert pat == r.path + q;
      if rest == "" {
        HasLeaf(p, q, h');
        Joins(r.path, q, name);
      } else {
        HasOnly(p, q, h');
        if name <= q && |q| > |name| {
          var z := q[|name|..];
          assert q == name + z;
          BlankEmpty(np - 1);
          HasInsert(below, np - 1, rest, h, z, h');
          FullBelow(below, rest);
          Joins(r.path + name, z, rest);
          assert pat == r.path + name + z;
        } else {
          NotLonger(name, q, rest);
        }
      }
    } else {
      Shorter(r.path, pat, name + rest);
    }
  }

  lemma FullIs(n: Node, path: string, pre: string, name: string, rest: string)
    requires path == pre + name + rest && name != "" && name[0] == ':' && ':' !in pre
    ensures var p := if pre == "" then n.path else pre;
      && Full(n, path) == p + name + rest && Full(n, path) == p + (name + rest)
      && (path != "" && path[0] == ':' <==> pre == "")
  {
  }

  lemma FullBelow(n: Node, rest: string)
    requires rest != "" && rest[0] == '/'
    ensures Full(n, rest) == rest
  {
  }

  lemma Joins(a: string, q: string, name: string)
    ensures a + q == a + name <==> q == name
  {
    if a + q == a + name {
      assert (a + q)[|a|..] == q && (a + name)[|a|..] == name;
    }
  }

  lemma NotLonger(name: string, q: string, rest: string)
    requires !(name <= q && |q| > |name|) && rest != ""
    ensures q != name + rest
  {
  }

  lemma Shorter(p: string, pat: string, more: string)
    requires !(p <= pat && |pat| > |p|) && more != ""
    ensures pat != p + more
  {
  }

  lemma HasSplit(n: Node, i: nat, bound: nat, pat: string, h: int)
    requires i < |n.path|
    ensures Has(SplitAt(n, i, bound), pat, h) <==> Has(n, pat, h)
  {
    hide Has, MostParams;
    var r := SplitAt(n, i, bound);
    var low := r.children[0];
    HasOnly(r, pat, h);
    HasIs(n, pat, h);
    if r.path <= pat && |pat| > i {
      var q := pat[i..];
      HasIs(low, q, h);
      assert n.path == r.path + low.path && pat == r.path + q;
      if low.path <= q {
        assert q[|low.path|..] == pat[|n.path|..];
        assert n.path <= pat;
      }
    }
  }

  /** A child that begins with another byte has none of the patterns. */
  lemma HasOther(c: Node, b: char, pat: string, h: int)
    requires StartsWith(c, b) && pat != "" && pat[0] != b
    ensures !Has(c, pat, h)
  {
  }

  lemma HasPromoted(n: Node, pos: nat, c: Node, pat: string, h: int)
    requires pos < |n.children| && Indexed(n) && StartsWith(c, n.indices[pos])
    ensures HasBelow(Promoted(n, pos, c).children, pat, h) <==>
      Has(c, pat, h) || exists i :: 0 <= i < |n.children| && i != pos && Has(n.children[i], pat, h)
  {
    hide Has, Promoted, MovesTo, Indexed, StartsWith;
    IndexedSize(n);
    PromotedParts(n, pos, c);
    var r, k := Promoted(n, pos, c), MovesTo(n.children, pos, c.priority);
    IndexedSize(r);
    if HasBelow(r.children, pat, h) {
      var i :| 0 <= i < |r.children| && Has(r.children[i], pat, h);
      if i != k {
        assert Has(n.children[Origin(pos, k, i)], pat, h);
      }
    }
    if i :| 0 <= i < |n.children| && i != pos && Has(n.children[i], pat, h) {
      var j := if i < k || i > pos then i else i + 1;
      assert Origin(pos, k, j) == i;
      assert Has(r.children[j], pat, h);
    }
    if Has(c, pat, h) {
      assert Has(r.children[k], pat, h);
    }
  }

  lemma IndexedSize(n: Node)
    requires Indexed(n)
    ensures |n.indices| == |n.children|
  {
  }

  /** After a registration of `path`, its pattern has the new handle and all others have what they had. */
  ghost predicate Updates(n: Node, full: string, h: int, r: Node, pat: string, h': int) {
    Has(r, pat, h') <==> if pat == full then h' == h else Has(n, pat, h')
  }

  lemma HasAdd(n: Node, rest: string, h: int, pat: string, h': int)
    requires rest != "" && Formed(n) && !n.wildChild && |n.indices| == |n.children| && AddChild(n, rest, h).Some?
    requires n.kind == Param ==> rest[0] == '/' && n.children == []
    requires forall i :: 0 <= i < |n.indices| ==> n.indices[i] != rest[0]
    ensures Updates(n, n.path + rest, h, AddChild(n, rest, h).value, pat, h')
  {
    hide *;
    AddIs(n, rest, h);
    var np := Wilds(rest);
    if rest[0] == ':' {
      WildsFirst(rest);
      var pre, name, more := InsertParts(n, np, rest, h);
      HasInsert(n, np, rest, h, pat, h');
      HasLeaf(n, pat, h');
      FullWild(n, rest);
      UpdatesMake(n, n.path + rest, h, AddChild(n, rest, h).value, pat, h');
    } else {
      HasAddNew(n, rest, h, pat, h');
    }
  }

  lemma WildsFirst(s: string)
    requires s != "" && s[0] == ':'
    ensures Wilds(s) > 0
  {
  }

  lemma FullWild(n: Node, rest: string)
    requires rest != "" && rest[0] == ':'
    ensures Full(n, rest) == n.path + rest && n.path + rest != n.path
  {
    assert |n.path + rest| > |n.path|;
  }

  lemma UpdatesMake(n: Node, full: string, h: int, r: Node, pat: string, h': int)
    requires Has(r, pat, h') <==> if pat == full then h' == h else Has(n, pat, h')
    ensures Updates(n, full, h, r, pat, h')
  {
  }

  lemma HasAddNew(n: Node, rest: string, h: int, pat: string, h': int)
    requires rest != "" && rest[0] != ':' && Formed(n) && !n.wildChild && |n.indices| == |n.children|
    requires AddChild(n, rest, h).Some?
    requires n.kind == Param ==> n.children == []
    requires forall i :: 0 <= i < |n.indices| ==> n.indices[i] != rest[0]
    ensures Updates(n, n.path + rest, h, AddChild(n, rest, h).value, pat, h')
  {
    hide *;
    AddIs(n, rest, h);
    var np := Wilds(rest);
    BlankEmpty(np);
    var e := EMPTY.(maxParams := np, priority := 1);
    BlankParts(e);
    InsertFormed(e, np, rest, h);
    var c := InsertChild(e, np, rest, h).value;
    var n1 := Appended(n, rest[0], c);
    AppendedIs(n, rest[0], c);
    FormedParts(n);
    var r := Promoted(n1, |n.children|, c);
    HasIs(n, pat, h');
    HasIs(r, pat, h');
    if n.kind == Param {
      NoneIndexed(n);
    }
    AppendIndexed(n, n1, c, rest[0]);
    PromotedParts(n1, |n.children|, c);
    if n.path <= pat && |pat| > |n.path| {
      var q := pat[|n.path|..];
      assert pat == n.path + q;
      Joins(n.path, q, rest);
      HasInsert(e, np, rest, h, q, h');
      FullStatic(e, rest);
      HasPromoted(n1, |n.children|, c, q, h');
      HasOld(n, n1, q, h', rest);
    } else {
      Shorter(n.path, pat, rest);
    }
    UpdatesMake(n, n.path + rest, h, r, pat, h');
  }

  lemma BlankParts(n: Node)
    requires Blank(n)
    ensures n.children == []
  {
  }

  lemma FullStatic(n: Node, rest: string)
    requires rest != "" && rest[0] != ':'
    ensures Full(n, rest) == rest
  {
  }

  lemma NoneIndexed(n: Node)
    requires n.children == [] && n.indices == ""
    ensures Indexed(n)
  {
  }

  /** The children that were there before have what they had, but nothing that begins with the new byte. */
  lemma HasOld(n: Node, n1: Node, q: string, h: int, rest: string)
    requires Indexed(n) && |n1.children| == |n.children| + 1 && q != "" && rest != ""
    requires forall i :: 0 <= i < |n.children| ==> n1.children[i] == n.children[i]
    requires forall i :: 0 <= i < |n.indices| ==> n.indices[i] != rest[0]
    ensures (exists i :: 0 <= i < |n1.children| && i != |n.children| && Has(n1.children[i], q, h)) <==>
      HasBelow(n.children, q, h)
    ensures q == rest ==> !HasBelow(n.children, q, h)
  {
    hide Has, StartsWith;
    if i :| 0 <= i < |n1.children| && i != |n.children| && Has(n1.children[i], q, h) {
      assert Has(n.children[i], q, h);
    }
    if i :| 0 <= i < |n.children| && Has(n.children[i], q, h) {
      assert Has(n1.children[i], q, h);
    }
    if q == rest && HasBelow(n.children, q, h) {
      var i :| 0 <= i < |n.children| && Has(n.children[i], q, h);
      HasOther(n.children[i], n.indices[i], q, h);
    }
  }

  lemma UpdatesIs(n: Node, full: string, h: int, r: Node, pat: string, h': int)
    requires Updates(n, full, h, r, pat, h')
    ensures Has(r, pat, h') <==> if pat == full then h' == h else Has(n, pat, h')
  {
  }

  lemma HasEntered(n: Node, path: string, pat: string, h: int)
    ensures Has(Entered(n, path), pat, h) <==> Has(n, pat, h)
  {
    hide Has, Wilds;
    HasIs(n, pat, h);
    HasIs(Entered(n, path), pat, h);
  }

  lemma UpdatesSplit(n: Node, path: string, i: nat, h: int, pat: string, h': int)
    requires Formed(n) && n.kind != Param && i == CommonLen(path, n.path) < |n.path|
    ensures i == |path| ==> Updates(n, path, h, SplitAt(n, i, Wilds(path)).(handle := Some(h)), pat, h')
    ensures i < |path| && AddChild(SplitAt(n, i, Wilds(path)), path[i..], h).Some? ==>
      Updates(n, path, h, AddChild(SplitAt(n, i, Wilds(path)), path[i..], h).value, pat, h')
  {
    hide Has, Wilds, AddChild, SplitAt, Formed;
    var n1 := SplitAt(n, i, Wilds(path));
    SplitIs(n, i, Wilds(path));
    HasSplit(n, i, Wilds(path), pat, h');
    if i == |path| {
      HasHandle(n1, h, pat, h');
      assert path == path[..i];
    } else if AddChild(n1, path[i..], h).Some? {
      SplitFormed(n, i, Wilds(path));
      HasAdd(n1, path[i..], h, pat, h');
      assert path == n1.path + path[i..];
    }
  }

  lemma UpdatesBelow(n: Node, path: string, h: int, c: Node, pat: string, h': int)
    requires |n.children| == 1 && n.path <= path && |n.path| < |path|
    requires |pat| > |n.path| ==> Updates(n.children[0], path[|n.path|..], h, c, pat[|n.path|..], h')
    ensures Updates(n, path, h, Entered(n, path).(children := [c]), pat, h')
  {
    hide Has, Wilds;
    var r := Entered(n, path).(children := [c]);
    HasOnly(n, pat, h');
    HasOnly(r, pat, h');
    if n.path <= pat && |pat| > |n.path| {
      assert pat == n.path + pat[|n.path|..] && path == n.path + path[|n.path|..];
    }
  }

  lemma UpdatesChild(n: Node, path: string, k: nat, h: int, c: Node, pat: string, h': int)
    requires Indexed(n) && k < |n.children| == |n.indices| && n.path <= path && |n.path| < |path|
    requires n.indices[k] == path[|n.path|]
    requires StartsWith(c, n.indices[k])
    requires |pat| > |n.path| ==> Updates(n.children[k], path[|n.path|..], h, c, pat[|n.path|..], h')
    ensures Updates(n, path, h, Promoted(Entered(n, path), k, c), pat, h')
  {
    hide Has, Wilds, Promoted, StartsWith, MovesTo, Entered;
    EnteredIs(n, path);
    var n0 := Entered(n, path);
    var r := Promoted(n0, k, c);
    PromotedParts(n0, k, c);
    HasIs(n, pat, h');
    HasIs(r, pat, h');
    if n.path <= pat && |pat| > |n.path| {
      var q, rest := pat[|n.path|..], path[|n.path|..];
      assert pat == n.path + q && path == n.path + rest;
      Joins(n.path, q, rest);
      HasPromoted(n0, k, c, q, h');
      HasAmong(n, k, q, h', rest);
    }
  }

  lemma EnteredIs(n: Node, path: string)
    ensures var r := Entered(n, path);
      && r.path == n.path && r.children == n.children && r.indices == n.indices && r.handle == n.handle
      && (Indexed(n) ==> Indexed(r))
  {
    hide Wilds;
  }

  /** What is below a node is below the child at `k` or below another. */
  lemma HasAmong(n: Node, k: nat, q: string, h: int, rest: string)
    requires Indexed(n) && k < |n.children| && q != "" && rest != "" && n.indices[k] == rest[0]
    ensures HasBelow(n.children, q, h) <==>
      Has(n.children[k], q, h) || exists i :: 0 <= i < |n.children| && i != k && Has(n.children[i], q, h)
    ensures q == rest ==> !exists i :: 0 <= i < |n.children| && i != k && Has(n.children[i], q, h)
  {
    hide Has, StartsWith;
    if Has(n.children[k], q, h) {
      assert HasBelow(n.children, q, h);
    }
    if q == rest {
      forall i | 0 <= i < |n.children| && i != k
        ensures !Has(n.children[i], q, h)
      {
        HasOther(n.children[i], n.indices[i], q, h);
      }
    }
  }

  lemma UpdatesHere(n: Node, path: string, h: int, pat: string, h': int)
    requires path == n.path
    ensures Updates(n, path, h, Entered(n, path).(handle := Some(h)), pat, h')
  {
    hide Has, Entered;
    EnteredIs(n, path);
    HasHandle(Entered(n, path), h, pat, h');
    HasEntered(n, path, pat, h');
  }

  lemma UpdatesNew(n: Node, path: string, h: int, pat: string, h': int)
    requires Formed(n) && !n.wildChild && |n.indices| == |n.children| && |n.path| < |path| && n.path <= path
    requires path[|n.path|] !in n.indices
    requires (n.kind == Param ==> path[|n.path|] == '/' && n.children == [])
    requires AddChild(Entered(n, path), path[|n.path|..], h).Some?
    ensures Updates(n, path, h, AddChild(Entered(n, path), path[|n.path|..], h).value, pat, h')
  {
    hide Has, Entered, AddChild, Formed;
    EnteredFormed(n, path);
    HasAdd(Entered(n, path), path[|n.path|..], h, pat, h');
    HasEntered(n, path, pat, h');
    assert path == n.path + path[|n.path|..];
  }

  /** The walk updates the map from patterns to handles at its path and nowhere else. */
  lemma {:induction false} WalkUpdates(n: Node, path: string, h: int, pat: string, h': int)
    requires Formed(n) && (n.kind == Param ==> Fits(n.path, path)) && Walk(n, path, h).Some?
    ensures Updates(n, path, h, Walk(n, path, h).value, pat, h')
    decreases n
  {
    hide *;
    var rest := if |n.path| <= |path| then path[|n.path|..] else "";
    var q := if |n.path| <= |pat| then pat[|n.path|..] else "";
    match Turns(n, path) {
      case Split(i) =>
        StepSplit(n, path, h);
        UpdatesSplit(n, path, i, h, pat, h');
      case Here =>
        StepHere(n, path, h);
        UpdatesHere(n, path, h, pat, h');
      case Clash =>
        StepHere(n, path, h);
      case Below =>
        StepBelow(n, path, h);
        OnlySome(Entered(n, path), Walk(n.children[0], rest, h));
        WalkUpdates(n.children[0], rest, h, q, h');
        UpdatesBelow(n, path, h, Walk(n.children[0], rest, h).value, pat, h');
      case Child(k) =>
        StepChild(n, path, h);
        EnteredFormed(n, path);
        ChildSome(Entered(n, path), k, Walk(n.children[k], rest, h));
        WalkUpdates(n.children[k], rest, h, q, h');
        WalkFormed(n.children[k], rest, h);
        IndexedChild(n, k);
        KeptParts(n.children[k], rest, Walk(n.children[k], rest, h).value);
        LikeStarts(n, k, Walk(n.children[k], rest, h).value);
        UpdatesChild(n, path, k, h, Walk(n.children[k], rest, h).value, pat, h');
      case New =>
        StepNew(n, path, h);
        UpdatesNew(n, path, h, pat, h');
    }
  }

  lemma LikeStarts(n: Node, k: nat, c: Node)
    requires Indexed(n) && k < |n.children| && StartsLike(c, n.children[k]) && c.kind == Static
    ensures |n.indices| == |n.children| && StartsWith(c, n.indices[k])
  {
  }

  /** A tree as registration leaves it. */
  ghost predicate Valid(n: Node) {
    && Formed(n) && n.kind != Param
    && (n.path != "" || n.children != [] || (n.handle == None && n.indices == "" && !n.wildChild))
  }

  /**
    * Registering a path keeps the tree well formed, gives the path its handle, and leaves the
    * handle of every other pattern as it was.
    */
  lemma AddRouteUpdates(n: Node, path: string, h: int, pat: string, h': int)
    requires Valid(n) && Plain(path) && AddRoute(n, path, h).Some?
    ensures var r := AddRoute(n, path, h).value;
      Valid(r) && (Has(r, pat, h') <==> if pat == path then h' == h else Has(n, pat, h'))
  {
    hide *;
    PlainParts(path);
    ValidParts(n);
    AddRouteIs(n, path, h);
    if n.path != "" || n.children != [] {
      WalkUpdates(n, path, h, pat, h');
      UpdatesIs(n, path, h, Walk(n, path, h).value, pat, h');
      WalkFormed(n, path, h);
      KeptParts(n, path, Walk(n, path, h).value);
      WalkGrown(n, path, h);
      ValidMake(Walk(n, path, h).value);
    } else {
      FirstRoute(n, path, h, pat, h');
    }
  }

  lemma ValidParts(n: Node)
    requires Valid(n)
    ensures Formed(n) && n.kind != Param
    ensures n.path == "" && n.children == [] ==> n.handle == None && n.indices == "" && !n.wildChild
  {
  }

  lemma ValidMake(n: Node)
    requires Formed(n) && n.kind != Param && (n.path != "" || n.children != [])
    ensures Valid(n)
  {
  }

  lemma PlainParts(path: string)
    requires Plain(path)
    ensures path != "" && '*' !in path
  {
  }

  lemma AddRouteIs(n: Node, path: string, h: int)
    requires Formed(n) && n.kind != Param && Plain(path)
    ensures n.path != "" || n.children != [] ==> AddRoute(n, path, h) == Walk(n, path, h)
    ensures n.path == "" && n.children == [] ==>
      var o := InsertChild(n.(priority := n.priority + 1), Wilds(path), path, h);
      if o.None? then AddRoute(n, path, h) == None else AddRoute(n, path, h) == Some(o.value.(kind := Root))
  {
    hide Walk, InsertChild, Wilds, Marks;
    MarksAreWilds(path);
  }

  lemma WalkGrown(n: Node, path: string, h: int)
    requires Formed(n) && n.kind != Param && Walk(n, path, h).Some? && path != "" && (n.path != "" || n.children != [])
    ensures Walk(n, path, h).value.path != "" || Walk(n, path, h).value.children != []
  {
    hide *;
    match Turns(n, path) {
      case Split(i) =>
        StepSplit(n, path, h);
        SplitGrown(n, path, i, h);
      case Here =>
        StepHere(n, path, h);
        EnteredFormed(n, path);
      case Clash =>
        StepHere(n, path, h);
      case Below =>
        StepBelow(n, path, h);
        OnlySome(Entered(n, path), Walk(n.children[0], path[|n.path|..], h));
      case Child(k) =>
        StepChild(n, path, h);
        EnteredFormed(n, path);
        ChildSome(Entered(n, path), k, Walk(n.children[k], path[|n.path|..], h));
        PromotedSize(Entered(n, path), k, Walk(n.children[k], path[|n.path|..], h));
      case New =>
        StepNew(n, path, h);
        EnteredFormed(n, path);
        AddGrown(Entered(n, path), path[|n.path|..], h);
    }
  }

  lemma PromotedSize(n: Node, k: nat, c: Option<Node>)
    requires k < |n.children| == |n.indices| && c.Some?
    ensures |Promoted(n, k, c.value).children| == |n.children|
  {
  }

  lemma AddGrown(n: Node, rest: string, h: int)
    requires rest != "" && |n.indices| == |n.children| && AddChild(n, rest, h).Some?
    ensures AddChild(n, rest, h).value.children != []
  {
    hide *;
    AddIs(n, rest, h);
    if rest[0] == ':' {
      WildsFirst(rest);
      var pre, name, more := InsertParts(n, Wilds(rest), rest, h);
    } else {
      var c := InsertChild(EMPTY.(maxParams := Wilds(rest), priority := 1), Wilds(rest), rest, h).value;
      AppendedIs(n, rest[0], c);
      PromotedSize(Appended(n, rest[0], c), |n.children|, Some(c));
    }
  }

  lemma SplitGrown(n: Node, path: string, i: nat, h: int)
    requires i < |n.path| && i <= |path|
    ensures i == |path| ==> SplitAt(n, i, Wilds(path)).(handle := Some(h)).children != []
    ensures i < |path| && AddChild(SplitAt(n, i, Wilds(path)), path[i..], h).Some? ==>
      AddChild(SplitAt(n, i, Wilds(path)), path[i..], h).value.children != []
  {
    hide AddChild, Wilds;
    if i < |path| && AddChild(SplitAt(n, i, Wilds(path)), path[i..], h).Some? {
      AddGrown(SplitAt(n, i, Wilds(path)), path[i..], h);
    }
  }

  lemma FirstRoute(n: Node, path: string, h: int, pat: string, h': int)
    requires Formed(n) && n.kind != Param && n.path == "" && n.children == [] && n.handle == None && n.indices == ""
    requires !n.wildChild
    requires path != "" && InsertChild(n.(priority := n.priority + 1), Wilds(path), path, h).Some?
    ensures var r := InsertChild(n.(priority := n.priority + 1), Wilds(path), path, h).value.(kind := Root);
      Valid(r) && (Has(r, pat, h') <==> if pat == path then h' == h else Has(n, pat, h'))
  {
    var n1, np := n.(priority := n.priority + 1), Wilds(path);
    hide InsertChild, Has, Wilds, Formed;
    InsertFormed(n1, np, path, h);
    HasInsert(n1, np, path, h, pat, h');
    HasLeaf(n, pat, h');
    var c := InsertChild(n1, np, path, h).value;
    assert n1.path + path == path;
    RootLike(c, pat, h');
    InsertGrown(n1, np, path, h);
  }

  lemma InsertGrown(n: Node, np: nat, path: string, h: int)
    requires Wilds(path) == np && path != "" && InsertChild(n, np, path, h).Some?
    ensures InsertChild(n, np, path, h).value.path != "" || InsertChild(n, np, path, h).value.children != []
  {
    if np > 0 {
      var pre, name, rest := InsertParts(n, np, path, h);
    }
  }

  lemma RootLike(c: Node, pat: string, h: int)
    requires Formed(c) && c.kind != Param
    ensures Formed(c.(kind := Root)) && (Has(c.(kind := Root), pat, h) <==> Has(c, pat, h))
  {
    hide Has;
    HasIs(c, pat, h);
    HasIs(c.(kind := Root), pat, h);
  }

  // ----- Lookup -----

  datatype Pair = Pair(key: string, value: string)

  datatype Match = Match(handle: int, params: seq<Pair>)

  /** The pattern, its wildcards filled with the values, is the path; a wildcard at the end is not left empty. */
  ghost predicate Fills(pat: string, path: string, ps: seq<Pair>)
    decreases |pat|
  {
    if pat == "" then path == "" && ps == []
    else if pat[0] == ':' then
      var n := SegLen(pat);
      && n > 0 && ps != [] && ps[0].key == pat[1..n] && ps[0].value <= path && '/' !in ps[0].value
      && (n == |pat| ==> ps[0].value != "") && Fills(pat[n..], path[|ps[0].value|..], ps[1..])
    else path != "" && path[0] == pat[0] && Fills(pat[1..], path[1..], ps)
  }

  lemma {:induction false} FillsStatic(a: string, pat: string, path: string, ps: seq<Pair>)
    requires ':' !in a
    ensures Fills(a + pat, path, ps) <==> a <= path && Fills(pat, path[|a|..], ps)
  {
    if a == "" {
      assert a + pat == pat && path[0..] == path;
    } else {
      assert (a + pat)[1..] == a[1..] + pat;
      if path != "" && path[0] == a[0] {
        FillsStatic(a[1..], pat, path[1..], ps);
        if a[1..] <= path[1..] {
          assert a == [a[0]] + a[1..] && path == [path[0]] + path[1..];
          assert path[|a|..] == path[1..][|a| - 1..];
        }
      }
    }
  }

  lemma FillsWild(name: string, z: string, path: string, ps: seq<Pair>)
    requires |name| >= 2 && name[0] == ':' && '/' !in name && (z == "" || z[0] == '/')
    ensures Fills(name + z, path, ps) <==>
      && ps != [] && ps[0].key == name[1..] && ps[0].value <= path && '/' !in ps[0].value
      && (z == "" ==> ps[0].value != "") && Fills(z, path[|ps[0].value|..], ps[1..])
  {
    var pat, n := name + z, |name|;
    SegLenIs(pat, n);
    assert pat[1..n] == name[1..] && pat[n..] == z;
  }

  /** The lookup of a path below a node that is not a wildcard. */
  function Get(n: Node, path: string): Option<Match>
    decreases n
  {
    if |path| > |n.path| then
      if n.path <= path then
        var rest := path[|n.path|..];
        if !n.wildChild then
          var k := IndexOf(n.indices, rest[0]);
          if k < |n.indices| && k < |n.children| then Get(n.children[k], rest) else None
        else if n.children == [] then None
        else
          var c, e := n.children[0], SegLen(rest);
          var p := Pair(if c.path == "" then "" else c.path[1..], rest[..e]);
          if e < |rest| then
            if c.children == [] then None else WithParam(p, Get(c.children[0], rest[e..]))
          else if c.handle.Some? then Some(Match(c.handle.value, [p])) else None
      else None
    else if path == n.path && n.handle.Some? then Some(Match(n.handle.value, []))
    else None
  }

  function WithParam(p: Pair, m: Option<Match>): Option<Match> {
    if m.None? then None else Some(Match(m.value.handle, [p] + m.value.params))
  }

  lemma GetHere(n: Node, path: string)
    requires |path| <= |n.path|
    ensures Get(n, path) == if path == n.path && n.handle.Some? then Some(Match(n.handle.value, [])) else None
  {
  }

  lemma GetBeside(n: Node, path: string)
    requires |path| > |n.path| && !(n.path <= path)
    ensures Get(n, path) == None
  {
  }

  lemma GetChild(n: Node, path: string)
    requires |path| > |n.path| && n.path <= path && !n.wildChild
    ensures var k := IndexOf(n.indices, path[|n.path|]);
      Get(n, path) == if k < |n.indices| && k < |n.children| then Get(n.children[k], path[|n.path|..]) else None
  {
  }

  lemma GetWild(n: Node, path: string)
    requires |path| > |n.path| && n.path <= path && n.wildChild && |n.children| == 1 && n.children[0].path != ""
    ensures var c, rest := n.children[0], path[|n.path|..];
      var e := SegLen(rest);
      var p := Pair(c.path[1..], rest[..e]);
      Get(n, path) ==
        if e < |rest| then if c.children == [] then None else WithParam(p, Get(c.children[0], rest[e..]))
        else if c.handle.Some? then Some(Match(c.handle.value, [p])) else None
  {
  }

  lemma WithParamIs(p: Pair, m: Option<Match>)
    ensures m.None? ==> WithParam(p, m) == None
    ensures m.Some? ==> WithParam(p, m) == Some(Match(m.value.handle, [p] + m.value.params))
  {
  }

  lemma StaticPaths(n: Node)
    requires Formed(n) && !n.wildChild && n.kind != Param
    ensures Indexed(n)
    ensures forall j :: 0 <= j < |n.children| ==> n.children[j].kind == Static && ':' !in n.children[j].path
  {
    hide Formed;
    FormedParts(n);
    forall j | 0 <= j < |n.children|
      ensures n.children[j].kind == Static && ':' !in n.children[j].path
    {
      FormedParts(n.children[j]);
    }
  }

  /** What is registered is found: a filled pattern leads to its handle, with the values that fill it. */
  lemma {:induction false} GetFinds(n: Node, pat: string, path: string, h: int, ps: seq<Pair>)
    requires Formed(n) && n.kind != Param && Has(n, pat, h) && Fills(pat, path, ps)
    ensures Get(n, path) == Some(Match(h, ps))
    decreases n
  {
    hide Has, Fills, Formed, Get, IndexOf, SegLen, HasBelow;
    FormedParts(n);
    HasIs(n, pat, h);
    var q := pat[|n.path|..];
    assert pat == n.path + q;
    FillsStatic(n.path, q, path, ps);
    var rest := path[|n.path|..];
    assert path == n.path + rest;
    if q == "" {
      FillsNothing(rest, ps);
      GetHere(n, path);
    } else {
      var i := SomeBelow(n.children, q, h);
      if n.wildChild {
        WildParts(n);
        FormedParts(n.children[0]);
        GetFindsWild(n.children[0], q, rest, h, ps);
        GetWild(n, path);
        var e := SegLen(rest);
        if e < |rest| {
          WithParamIs(ps[0], Get(n.children[0].children[0], rest[e..]));
          assert ps == [ps[0]] + ps[1..];
        }
      } else {
        StaticPaths(n);
        GetFindsChild(n, i, q, rest, h, ps);
        GetChild(n, path);
        GetFinds(n.children[i], q, rest, h, ps);
      }
    }
  }

  lemma SomeBelow(ns: seq<Node>, q: string, h: int) returns (i: nat)
    requires HasBelow(ns, q, h)
    ensures i < |ns| && Has(ns[i], q, h)
  {
    i :| 0 <= i < |ns| && Has(ns[i], q, h);
  }

  lemma FillsNothing(path: string, ps: seq<Pair>)
    requires Fills("", path, ps)
    ensures path == "" && ps == []
  {
  }

  lemma WildParts(n: Node)
    requires Formed(n) && n.wildChild
    ensures |n.children| == 1 && n.children[0].kind == Param && n.indices == ""
  {
  }

  lemma ParamBelow(c: Node)
    requires Formed(c) && c.kind == Param
    ensures |c.children| <= 1
    ensures forall i :: 0 <= i < |c.children| ==> StartsWith(c.children[i], '/') && Formed(c.children[i])
  {
  }

  /** The child with the next byte of the pattern is the one with the next byte of the path. */
  lemma GetFindsChild(n: Node, i: nat, q: string, rest: string, h: int, ps: seq<Pair>)
    requires Indexed(n) && i < |n.children| && Has(n.children[i], q, h) && q != "" && Fills(q, rest, ps)
    requires forall j :: 0 <= j < |n.children| ==> ':' !in n.children[j].path
    ensures rest != "" && IndexOf(n.indices, rest[0]) == i && |n.indices| == |n.children|
  {
    hide Fills;
    HasIs(n.children[i], q, h);
    assert q[0] == n.indices[i] && q[0] != ':';
    FillsByte(q, rest, ps);
  }

  lemma FillsByte(q: string, rest: string, ps: seq<Pair>)
    requires q != "" && q[0] != ':' && Fills(q, rest, ps)
    ensures rest != "" && rest[0] == q[0]
  {
  }

  /** A wildcard of a pattern and its value. */
  lemma GetFindsWild(c: Node, q: string, rest: string, h: int, ps: seq<Pair>)
    requires Formed(c) && c.kind == Param && Has(c, q, h) && Fills(q, rest, ps)
    ensures rest != "" && var e := SegLen(rest); var p := Pair(c.path[1..], rest[..e]);
      && ps != [] && ps[0] == p
      && (if e < |rest| then |c.children| == 1 && Get(c.children[0], rest[e..]) == Some(Match(h, ps[1..]))
          else c.handle == Some(h) && ps == [p])
    decreases c, 0
  {
    hide Has, Fills, Formed;
    FormedParts(c);
    ParamBelow(c);
    HasIs(c, q, h);
    var z := q[|c.path|..];
    assert q == c.path + z;
    if z != "" {
      var i :| 0 <= i < |c.children| && Has(c.children[i], z, h);
      HasIs(c.children[i], z, h);
    }
    FillsWild(c.path, z, rest, ps);
    var v := ps[0].value;
    var after := rest[|v|..];
    assert rest == v + after;
    if z == "" {
      FillsNothing(after, ps[1..]);
      SegLenIs(rest, |rest|);
      assert ps == [ps[0]] + ps[1..];
    } else {
      FillsByte(z, after, ps[1..]);
      SegLenIs(rest, |v|);
      GetFinds(c.children[0], z, after, h, ps[1..]);
    }
  }

  /** What is found is registered: the handle belongs to a pattern that the values fill. */
  lemma {:induction false} GetFound(n: Node, path: string) returns (pat: string)
    requires Formed(n) && n.kind != Param && Get(n, path).Some?
    ensures Has(n, pat, Get(n, path).value.handle) && Fills(pat, path, Get(n, path).value.params)
    decreases n
  {
    hide Has, Fills, Formed, Get, HasBelow, IndexOf, SegLen;
    FormedParts(n);
    var m := Get(n, path).value;
    if |path| > |n.path| {
      if !(n.path <= path) {
        GetBeside(n, path);
        assert false;
      }
      var rest := path[|n.path|..];
      var q;
      if n.wildChild {
        WildParts(n);
        q := GetFoundBelow(n, path);
        HasOne(n.children[0], q, m.handle);
        assert n.children == [n.children[0]];
      } else {
        StaticPaths(n);
        GetChild(n, path);
        var k := IndexOf(n.indices, rest[0]);
        q := GetFound(n.children[k], rest);
        ByteOf(n, k, q, m.handle);
      }
      pat := n.path + q;
      assert pat[|n.path|..] == q;
      HasIs(n, pat, m.handle);
      FillsStatic(n.path, q, path, m.params);
    } else {
      GetHere(n, path);
      pat := path;
      HasIs(n, pat, m.handle);
      assert n.path + "" == path && path[|n.path|..] == "";
      FillsStatic(n.path, "", path, []);
      FillsEmpty();
    }
  }

  lemma GetFoundBelow(n: Node, path: string) returns (q: string)
    requires Formed(n) && n.wildChild && |path| > |n.path| && n.path <= path && Get(n, path).Some?
    requires |n.children| == 1 && n.children[0].kind == Param
    ensures q != "" && Has(n.children[0], q, Get(n, path).value.handle)
    ensures Fills(q, path[|n.path|..], Get(n, path).value.params)
    decreases n, 0
  {
    hide Has, Fills, Formed, Get, HasBelow, IndexOf, SegLen;
    var c, rest, m := n.children[0], path[|n.path|..], Get(n, path).value;
    FormedParts(n);
    FormedParts(c);
    ParamBelow(c);
    GetWild(n, path);
    var e := SegLen(rest);
    if e < |rest| {
      WithParamIs(Pair(c.path[1..], rest[..e]), Get(c.children[0], rest[e..]));
    }
    q := GetFoundWild(c, rest, m);
  }

  lemma FillsEmpty()
    ensures Fills("", "", [])
  {
  }

  lemma ByteOf(n: Node, k: nat, q: string, h: int)
    requires Indexed(n) && k < |n.children| && Has(n.children[k], q, h)
    ensures q != "" && HasBelow(n.children, q, h)
  {
  }

  lemma GetFoundWild(c: Node, rest: string, m: Match) returns (q: string)
    requires Formed(c) && c.kind == Param && rest != "" && m.params != []
    requires m.params[0] == Pair(c.path[1..], rest[..SegLen(rest)])
    requires if SegLen(rest) < |rest|
      then |c.children| == 1 && Get(c.children[0], rest[SegLen(rest)..]) == Some(Match(m.handle, m.params[1..]))
             else c.handle == Some(m.handle) && m.params == [m.params[0]]
    ensures q != "" && Has(c, q, m.handle) && Fills(q, rest, m.params)
    decreases c, 0
  {
    hide Has, Fills, Formed;
    FormedParts(c);
    ParamBelow(c);
    var e := SegLen(rest);
    var z := "";
    if e < |rest| {
      z := GetFound(c.children[0], rest[e..]);
      HasIs(c.children[0], z, m.handle);
      HasOne(c.children[0], z, m.handle);
      assert c.children == [c.children[0]];
    } else {
      FillsEmpty();
      assert rest[e..] == "" && m.params[1..] == [];
    }
    assert |m.params[0].value| == e;
    q := c.path + z;
    assert q[|c.path|..] == z;
    HasIs(c, q, m.handle);
    FillsWild(c.path, z, rest, m.params);
  }

  // ----- Room for the parameters, and the order of the children -----

  /** No way down from the node meets more than `b` wildcards, its own among them. */
  ghost predicate DeepAtMost(n: Node, b: nat)
    decreases n
  {
    if n.kind == Param then b >= 1 && forall i :: 0 <= i < |n.children| ==> DeepAtMost(n.children[i], b - 1)
    else forall i :: 0 <= i < |n.children| ==> DeepAtMost(n.children[i], b)
  }

  ghost predicate ByPriority(ns: seq<Node>) {
    forall i, j :: 0 <= i < j < |ns| ==> ns[i].priority >= ns[j].priority
  }

  /** At every wildcard node `maxParams` is enough for all below, and children come by priority. */
  ghost predicate Sound(n: Node)
    decreases n
  {
    && (n.kind == Param ==> DeepAtMost(n, n.maxParams)) && ByPriority(n.children)
    && forall i :: 0 <= i < |n.children| ==> Sound(n.children[i])
  }

  lemma {:induction false} DeepMore(n: Node, b: nat, b': nat)
    requires DeepAtMost(n, b) && b <= b'
    ensures DeepAtMost(n, b')
    decreases n
  {
    forall i | 0 <= i < |n.children|
      ensures DeepAtMost(n.children[i], if n.kind == Param then b' - 1 else b')
    {
      DeepMore(n.children[i], if n.kind == Param then b - 1 else b, if n.kind == Param then b' - 1 else b');
    }
  }

  /** The children of a node, which alone decide how deep it is. */
  lemma DeepMake(n: Node, b: nat)
    requires n.kind == Param ==> b >= 1
    requires forall i :: 0 <= i < |n.children| ==> DeepAtMost(n.children[i], if n.kind == Param then b - 1 else b)
    ensures DeepAtMost(n, b)
  {
  }

  lemma DeepParts(n: Node, b: nat)
    requires DeepAtMost(n, b)
    ensures n.kind == Param ==> b >= 1
    ensures forall i :: 0 <= i < |n.children| ==> DeepAtMost(n.children[i], if n.kind == Param then b - 1 else b)
  {
  }

  lemma SoundMake(n: Node)
    requires (n.kind == Param ==> DeepAtMost(n, n.maxParams)) && ByPriority(n.children)
    requires forall i :: 0 <= i < |n.children| ==> Sound(n.children[i])
    ensures Sound(n)
  {
  }

  lemma SoundParts(n: Node)
    requires Sound(n)
    ensures (n.kind == Param ==> DeepAtMost(n, n.maxParams)) && ByPriority(n.children)
    ensures forall i :: 0 <= i < |n.children| ==> Sound(n.children[i])
  {
  }

  lemma OneByPriority(ns: seq<Node>)
    requires |ns| <= 1
    ensures ByPriority(ns)
  {
  }

  lemma {:induction false} InsertSound(n: Node, np: nat, path: string, h: int)
    requires n.kind != Param && n.children == [] && Wilds(path) == np && InsertChild(n, np, path, h).Some?
    ensures Sound(InsertChild(n, np, path, h).value) && DeepAtMost(InsertChild(n, np, path, h).value, np)
    decreases |path|
  {
    if np == 0 {
      LeafSound(n.(path := path, handle := Some(h)));
    } else {
      InsertWildSound(n, np, path, h);
    }
  }

  lemma LeafSound(n: Node)
    requires n.kind != Param && n.children == []
    ensures Sound(n) && DeepAtMost(n, 0)
  {
  }

  lemma InsertWildSound(n: Node, np: nat, path: string, h: int)
    requires n.kind != Param && n.children == [] && Wilds(path) == np > 0 && InsertChild(n, np, path, h).Some?
    ensures Sound(InsertChild(n, np, path, h).value) && DeepAtMost(InsertChild(n, np, path, h).value, np)
    decreases |path|, 0
  {
    hide *;
    var r := InsertChild(n, np, path, h).value;
    var pre, name, rest := InsertParts(n, np, path, h);
    SegmentParts(path, pre, name, rest);
    var p, below := r.children[0], EMPTY.(maxParams := np - 1, priority := 1);
    if rest != "" {
      BlankEmpty(np - 1);
      BlankParts(below);
      InsertSound(below, np - 1, rest, h);
    }
    DeepMake(p, np);
    OneByPriority(p.children);
    SoundMake(p);
    DeepMake(r, np);
    OneByPriority(r.children);
    SoundMake(r);
  }

  /** The children but one come by priority, and those after that one do not come before `prio`. */
  ghost predicate SortedBut(ns: seq<Node>, pos: nat, prio: nat) {
    && (forall i, j :: 0 <= i < j < |ns| && i != pos && j != pos ==> ns[i].priority >= ns[j].priority)
    && (forall j :: pos < j < |ns| ==> prio >= ns[j].priority)
  }

  lemma PromotedSorted(n: Node, pos: nat, c: Node)
    requires pos < |n.children| == |n.indices| && SortedBut(n.children, pos, c.priority)
    ensures ByPriority(Promoted(n, pos, c).children)
  {
    var r, k := Promoted(n, pos, c), MovesTo(n.children, pos, c.priority);
    forall i | 0 <= i < |n.children|
      ensures r.children[i] == if i == k then c else n.children[Origin(pos, k, i)]
    {
      MovedAt(n.children, pos, k, c, i);
    }
    hide Promoted, Moved;
    forall i, j | 0 <= i < j < |r.children|
      ensures r.children[i].priority >= r.children[j].priority
    {
      if j == k {
        assert i < k ==> i == k - 1 || n.children[i].priority >= n.children[k - 1].priority;
      }
    }
  }

  lemma PromotedSound(n: Node, pos: nat, c: Node, b: nat)
    requires n.kind != Param && pos < |n.children| && Indexed(n) && StartsWith(c, n.indices[pos])
    requires SortedBut(n.children, pos, c.priority) && Sound(c) && DeepAtMost(c, b)
    requires forall i :: 0 <= i < |n.children| && i != pos ==> Sound(n.children[i])
    ensures Sound(Promoted(n, pos, c))
    ensures (forall i :: 0 <= i < |n.children| && i != pos ==> DeepAtMost(n.children[i], b)) ==>
      DeepAtMost(Promoted(n, pos, c), b)
  {
    hide DeepAtMost, Sound, ByPriority, Promoted, StartsWith, MovesTo, Indexed, SortedBut;
    IndexedSize(n);
    PromotedSorted(n, pos, c);
    PromotedParts(n, pos, c);
    var r := Promoted(n, pos, c);
    SoundMake(r);
    if forall i :: 0 <= i < |n.children| && i != pos ==> DeepAtMost(n.children[i], b) {
      DeepMake(r, b);
    }
  }

  /** What is kept at a node that is entered with a path of at most `b` wildcards. */
  ghost predicate Roomy(n: Node, r: Node, b: nat) {
    Sound(r) && (DeepAtMost(n, b) ==> DeepAtMost(r, b))
  }

  lemma AddSound(n: Node, rest: string, h: int, b: nat)
    requires rest != "" && Formed(n) && !n.wildChild && |n.indices| == |n.children| && AddChild(n, rest, h).Some?
    requires Wilds(rest) <= b
    requires n.kind == Param ==> rest[0] == '/' && n.children == [] && b + 1 <= n.maxParams
    requires Sound(n) && forall i :: 0 <= i < |n.indices| ==> n.indices[i] != rest[0]
    ensures Sound(AddChild(n, rest, h).value)
    ensures n.kind != Param && DeepAtMost(n, b) ==> DeepAtMost(AddChild(n, rest, h).value, b)
    ensures n.kind == Param ==> DeepAtMost(AddChild(n, rest, h).value, b + 1)
  {
    hide *;
    AddIs(n, rest, h);
    var np, r := Wilds(rest), AddChild(n, rest, h).value;
    if rest[0] == ':' {
      WildsFirst(rest);
      var pre, name, more := InsertParts(n, np, rest, h);
      InsertSound(n, np, rest, h);
      DeepMore(r, np, b);
    } else {
      BlankEmpty(np);
      var e := EMPTY.(maxParams := np, priority := 1);
      BlankParts(e);
      InsertFormed(e, np, rest, h);
      InsertSound(e, np, rest, h);
      var c := InsertChild(e, np, rest, h).value;
      DeepMore(c, np, b);
      var n1 := Appended(n, rest[0], c);
      AppendedIs(n, rest[0], c);
      SoundParts(n);
      FormedParts(n);
      if n.kind == Param {
        PromotedOne(n1, c);
        DeepMake(n1, b + 1);
        DeepMore(n1, b + 1, n1.maxParams);
        OneByPriority(n1.children);
        SoundMake(n1);
      } else {
        AppendIndexed(n, n1, c, rest[0]);
        AddSoundNew(n, n1, c, b);
      }
    }
  }

  lemma AddSoundNew(n: Node, n1: Node, c: Node, b: nat)
    requires n.kind != Param && n1.children == n.children + [c] && n1.kind == n.kind && Indexed(n1)
    requires Sound(n) && Sound(c) && DeepAtMost(c, b) && |n1.indices| == |n1.children|
    requires StartsWith(c, n1.indices[|n.children|])
    ensures Sound(Promoted(n1, |n.children|, c)) && (DeepAtMost(n, b) ==> DeepAtMost(Promoted(n1, |n.children|, c), b))
  {
    hide DeepAtMost, Sound, Promoted, StartsWith, Indexed;
    SoundParts(n);
    assert SortedBut(n1.children, |n.children|, c.priority);
    PromotedSound(n1, |n.children|, c, b);
    if DeepAtMost(n, b) {
      DeepParts(n, b);
    }
  }

  lemma WildsRest(n: Node, path: string, i: nat)
    requires Formed(n) && i <= |n.path| && i <= |path| && path[..i] == n.path[..i]
    requires (n.kind == Param ==> i == |n.path|)
    ensures n.kind != Param ==> Wilds(path[i..]) == Wilds(path)
    ensures n.kind == Param ==> Wilds(path[i..]) == Wilds(path) - 1
  {
    FormedParts(n);
    hide Formed;
    assert path == path[..i] + path[i..];
    WildsConcat(path[..i], path[i..]);
    if n.kind == Param {
      assert n.path[..i] == n.path && n.path == [n.path[0]] + n.path[1..];
      WildsConcat([n.path[0]], n.path[1..]);
      WildsNone(n.path[1..]);
    } else {
      WildsNone(path[..i]);
    }
  }

  lemma EnteredSound(n: Node, path: string, b: nat)
    requires Sound(n)
    ensures Sound(Entered(n, path)) && (DeepAtMost(n, b) <==> DeepAtMost(Entered(n, path), b))
    ensures Entered(n, path).maxParams >= Wilds(path) && Entered(n, path).maxParams >= n.maxParams
  {
    hide Wilds;
    var r := Entered(n, path);
    if n.kind == Param {
      DeepMore(n, n.maxParams, r.maxParams);
    }
  }

  lemma HandleSound(n: Node, h: int, b: nat)
    requires Sound(n)
    ensures Sound(n.(handle := Some(h))) && (DeepAtMost(n, b) ==> DeepAtMost(n.(handle := Some(h)), b))
  {
  }

  lemma SplitSound(n: Node, i: nat, bound: nat, b: nat)
    requires Sound(n) && n.kind != Param && i < |n.path|
    ensures Sound(SplitAt(n, i, bound)) && (DeepAtMost(n, b) ==> DeepAtMost(SplitAt(n, i, bound), b))
  {
    hide MostParams;
    var r := SplitAt(n, i, bound);
    assert Sound(r.children[0]);
    if DeepAtMost(n, b) {
      assert DeepAtMost(r.children[0], b);
    }
  }

  lemma RoomySplit(n: Node, path: string, i: nat, h: int, b: nat)
    requires Formed(n) && Sound(n) && n.kind != Param && i == CommonLen(path, n.path) < |n.path| && Wilds(path) <= b
    ensures i == |path| ==> Roomy(n, SplitAt(n, i, Wilds(path)).(handle := Some(h)), b)
    ensures i < |path| && AddChild(SplitAt(n, i, Wilds(path)), path[i..], h).Some? ==>
      Roomy(n, AddChild(SplitAt(n, i, Wilds(path)), path[i..], h).value, b)
  {
    hide Sound, DeepAtMost, Wilds, AddChild, SplitAt, Formed;
    var n1 := SplitAt(n, i, Wilds(path));
    SplitIs(n, i, Wilds(path));
    SplitSound(n, i, Wilds(path), b);
    if i == |path| {
      HandleSound(n1, h, b);
    } else if AddChild(n1, path[i..], h).Some? {
      SplitFormed(n, i, Wilds(path));
      WildsRest(n, path, i);
      AddSound(n1, path[i..], h, b);
    }
  }

  /** The only child of a node is replaced. */
  lemma RoomyBelow(n: Node, path: string, c: Node, b: nat)
    requires Sound(n) && |n.children| == 1 && Sound(c)
    requires DeepAtMost(n.children[0], b) ==> DeepAtMost(c, b)
    requires n.kind == Param ==> Wilds(path) >= 1
    requires b >= 1 && n.kind == Param && DeepAtMost(n.children[0], b - 1) ==> DeepAtMost(c, b - 1)
    requires var m := Entered(n, path).maxParams;
      m >= 1 && n.kind == Param && DeepAtMost(n.children[0], m - 1) ==> DeepAtMost(c, m - 1)
    ensures Roomy(n, Entered(n, path).(children := [c]), b)
  {
    hide Sound, DeepAtMost, Wilds, Entered;
    EnteredFormedOnly(n, path);
    var n0 := Entered(n, path);
    var r, m := n0.(children := [c]), n0.maxParams;
    EnteredSound(n, path, b);
    SoundParts(n);
    SoundParts(n0);
    if n.kind == Param {
      DeepParts(n0, m);
      DeepMake(r, m);
    }
    OneByPriority(r.children);
    SoundMake(r);
    if DeepAtMost(n, b) {
      DeepParts(n, b);
      DeepMake(r, b);
    }
  }

  lemma EnteredFormedOnly(n: Node, path: string)
    ensures var r := Entered(n, path);
      && r.kind == n.kind && r.children == n.children && r.indices == n.indices && r.path == n.path
      && r.wildChild == n.wildChild
    ensures Entered(n, path).maxParams >= Wilds(path)
  {
    hide Wilds;
  }

  lemma RoomyChild(n: Node, path: string, k: nat, c: Node, b: nat)
    requires Sound(n) && n.kind != Param && Indexed(n) && k < |n.children| && StartsWith(c, n.indices[k])
    requires Sound(c) && c.priority == n.children[k].priority + 1 && (DeepAtMost(n.children[k], b) ==> DeepAtMost(c, b))
    ensures |n.indices| == |n.children| && Roomy(n, Promoted(Entered(n, path), k, c), b)
  {
    hide Sound, DeepAtMost, Wilds, Entered, Promoted, StartsWith;
    EnteredIs(n, path);
    EnteredFormedOnly(n, path);
    SoundParts(n);
    var n0 := Entered(n, path);
    assert SortedBut(n0.children, k, c.priority);
    var d := DeepSome(c);
    PromotedSound(n0, k, c, d);
    if DeepAtMost(n, b) {
      DeepParts(n, b);
      PromotedSound(n0, k, c, b);
    }
  }

  /** Every tree has some depth. */
  lemma {:induction false} DeepSome(n: Node) returns (b: nat)
    ensures DeepAtMost(n, b)
    decreases n
  {
    b := DeepAll(n.children);
    if n.kind == Param {
      b := b + 1;
    }
    DeepMake(n, b);
  }

  lemma {:induction false} DeepAll(ns: seq<Node>) returns (b: nat)
    ensures forall i :: 0 <= i < |ns| ==> DeepAtMost(ns[i], b)
    decreases ns
  {
    b := 0;
    if ns != [] {
      var x := DeepSome(ns[0]);
      var y := DeepAll(ns[1..]);
      b := Greater(x, y);
      forall i | 0 <= i < |ns|
        ensures DeepAtMost(ns[i], b)
      {
        if i == 0 {
          DeepMore(ns[0], x, b);
        } else {
          DeepMore(ns[1..][i - 1], y, b);
        }
      }
    }
  }

  lemma RoomyHere(n: Node, path: string, h: int, b: nat)
    requires Sound(n)
    ensures Roomy(n, Entered(n, path).(handle := Some(h)), b)
  {
    hide Sound, DeepAtMost, Entered;
    EnteredSound(n, path, b);
    HandleSound(Entered(n, path), h, b);
  }

  lemma RoomyNew(n: Node, path: string, h: int, b: nat)
    requires Formed(n) && Sound(n) && !n.wildChild && |n.indices| == |n.children| && |n.path| < |path|
    requires n.path <= path && path[|n.path|] !in n.indices
    requires (n.kind == Param ==> path[|n.path|] == '/' && n.children == [])
    requires AddChild(Entered(n, path), path[|n.path|..], h).Some?
    requires Wilds(path) <= b
    ensures Roomy(n, AddChild(Entered(n, path), path[|n.path|..], h).value, b)
  {
    hide Sound, DeepAtMost, Entered, AddChild, Formed, Wilds;
    EnteredFormed(n, path);
    EnteredSound(n, path, b);
    var n0, rest := Entered(n, path), path[|n.path|..];
    assert path[..|n.path|] == n.path[..|n.path|];
    WildsRest(n, path, |n.path|);
    if n.kind == Param {
      AddSound(n0, rest, h, Wilds(rest));
      DeepMore(AddChild(n0, rest, h).value, Wilds(path), b);
    } else {
      AddSound(n0, rest, h, b);
    }
  }

  /** Registration keeps the room for parameters and the order of the children. */
  lemma {:induction false} WalkSound(n: Node, path: string, h: int, b: nat)
    requires Formed(n) && (n.kind == Param ==> Fits(n.path, path)) && Walk(n, path, h).Some? && Sound(n)
    requires Wilds(path) <= b
    ensures Roomy(n, Walk(n, path, h).value, b)
    decreases n
  {
    hide *;
    var rest := if |n.path| <= |path| then path[|n.path|..] else "";
    SoundParts(n);
    match Turns(n, path) {
      case Split(i) =>
        StepSplit(n, path, h);
        RoomySplit(n, path, i, h, b);
      case Here =>
        StepHere(n, path, h);
        RoomyHere(n, path, h, b);
      case Clash =>
        StepHere(n, path, h);
      case Below =>
        StepBelow(n, path, h);
        OnlySome(Entered(n, path), Walk(n.children[0], rest, h));
        assert path[..|n.path|] == n.path[..|n.path|];
        WildsRest(n, path, |n.path|);
        var c, c' := n.children[0], Walk(n.children[0], rest, h).value;
        WalkSound(c, rest, h, b);
        RoomyParts(c, c', b);
        EnteredFormedOnly(n, path);
        if n.kind == Param {
          WalkSound(c, rest, h, b - 1);
          RoomyParts(c, c', b - 1);
          WalkSound(c, rest, h, Entered(n, path).maxParams - 1);
          RoomyParts(c, c', Entered(n, path).maxParams - 1);
        }
        RoomyBelow(n, path, c', b);
      case Child(k) =>
        StepChild(n, path, h);
        EnteredFormed(n, path);
        ChildSome(Entered(n, path), k, Walk(n.children[k], rest, h));
        assert path[..|n.path|] == n.path[..|n.path|];
        WildsRest(n, path, |n.path|);
        var c, c' := n.children[k], Walk(n.children[k], rest, h).value;
        WalkSound(c, rest, h, b);
        RoomyParts(c, c', b);
        WalkFormed(c, rest, h);
        IndexedChild(n, k);
        KeptParts(c, rest, c');
        LikeStarts(n, k, c');
        RoomyChild(n, path, k, c', b);
      case New =>
        StepNew(n, path, h);
        RoomyNew(n, path, h, b);
    }
  }

  lemma RoomyParts(n: Node, r: Node, b: nat)
    requires Roomy(n, r, b)
    ensures Sound(r) && (DeepAtMost(n, b) ==> DeepAtMost(r, b))
  {
  }

  // ----- Whole runs -----

  datatype Route = Route(path: string, handle: int)

  ghost predicate Paths(routes: seq<Route>) {
    forall i :: 0 <= i < |routes| ==> Plain(routes[i].path)
  }

  /** The tree after a run of registrations, unless one of them panics. */
  ghost function Register(routes: seq<Route>): (t: Option<Node>)
    requires Paths(routes)
    ensures t.Some? ==> Valid(t.value)
  {
    if routes == [] then EmptyValid(); Some(EMPTY)
    else
      var last := routes[|routes| - 1];
      match Register(routes[..|routes| - 1])
      case None => None
      case Some(t) =>
        var r := AddRoute(t, last.path, last.handle);
        if r.Some? then AddRouteUpdates(t, last.path, last.handle, "", 0); r else None
  }

  lemma EmptyValid()
    ensures Valid(EMPTY) && Sound(EMPTY)
  {
  }

  /** The handle that a pattern was registered with last. */
  function Latest(routes: seq<Route>, pat: string): Option<int> {
    if routes == [] then None
    else if routes[|routes| - 1].path == pat then Some(routes[|routes| - 1].handle)
    else Latest(routes[..|routes| - 1], pat)
  }

  lemma AddRouteSound(n: Node, path: string, h: int)
    requires Valid(n) && Plain(path) && Sound(n) && AddRoute(n, path, h).Some?
    ensures Sound(AddRoute(n, path, h).value)
  {
    hide *;
    PlainParts(path);
    ValidParts(n);
    AddRouteIs(n, path, h);
    if n.path != "" || n.children != [] {
      WalkSound(n, path, h, Wilds(path));
      RoomyParts(n, Walk(n, path, h).value, Wilds(path));
    } else {
      InsertSound(n.(priority := n.priority + 1), Wilds(path), path, h);
      RootSound(InsertChild(n.(priority := n.priority + 1), Wilds(path), path, h).value);
    }
  }

  lemma RootSound(n: Node)
    requires Sound(n)
    ensures Sound(n.(kind := Root))
  {
  }

  /** After every run a tree has, for each pattern, the handle that came last. */
  lemma {:induction false} RunHas(routes: seq<Route>, pat: string, h: int)
    requires Paths(routes) && Register(routes).Some?
    ensures Sound(Register(routes).value) && (Has(Register(routes).value, pat, h) <==> Latest(routes, pat) == Some(h))
  {
    hide Has, Sound, Valid, AddRoute;
    if routes == [] {
      EmptyValid();
      HasLeaf(EMPTY, pat, h);
    } else {
      var last, t := routes[|routes| - 1], Register(routes[..|routes| - 1]).value;
      RunHas(routes[..|routes| - 1], pat, h);
      AddRouteUpdates(t, last.path, last.handle, pat, h);
      AddRouteSound(t, last.path, last.handle);
    }
  }

  lemma ValidFormed(n: Node)
    requires Valid(n)
    ensures Formed(n) && n.kind != Param
  {
  }

  /** A path that fills a registered pattern finds its latest handle, with the values. */
  lemma RouteFinds(routes: seq<Route>, pat: string, path: string, h: int, ps: seq<Pair>)
    requires Paths(routes) && Register(routes).Some? && Latest(routes, pat) == Some(h) && Fills(pat, path, ps)
    ensures Get(Register(routes).value, path) == Some(Match(h, ps))
  {
    hide *;
    RunHas(routes, pat, h);
    ValidFormed(Register(routes).value);
    GetFinds(Register(routes).value, pat, path, h, ps);
  }

  /** A handle that is found is the latest of a registered pattern that the values fill to the path. */
  lemma RouteFound(routes: seq<Route>, path: string) returns (pat: string)
    requires Paths(routes) && Register(routes).Some? && Get(Register(routes).value, path).Some?
    ensures var m := Get(Register(routes).value, path).value;
      Latest(routes, pat) == Some(m.handle) && Fills(pat, path, m.params)
  {
    hide *;
    ValidFormed(Register(routes).value);
    pat := GetFound(Register(routes).value, path);
    RunHas(routes, pat, Get(Register(routes).value, path).value.handle);
  }

  // ----- The loops -----

  function Raised(n: Node): Node {
    n.(priority := n.priority + 1)
  }

  /** One more for the child at `pos`, which is swapped forward past children of lower priority. */
  method IncrementChildPrio(n: Node, pos: nat) returns (r: Node, newPos: nat)
    requires pos < |n.children| == |n.indices|
    ensures r == Promoted(n, pos, Raised(n.children[pos]))
    ensures newPos == MovesTo(n.children, pos, n.children[pos].priority + 1)
    ensures newPos < |r.children| && r.children[newPos] == Raised(n.children[pos])
  {
    var children := n.children[pos := n.children[pos].(priority := n.children[pos].priority + 1)];
    ghost var c := children[pos];
    var prio := children[pos].priority;
    newPos := pos;
    assert children == Moved(n.children, pos, pos, c);
    while newPos > 0 && children[newPos - 1].priority < prio
      invariant newPos <= pos && children == Moved(n.children, pos, newPos, c)
      invariant MovesTo(n.children, newPos, prio) == MovesTo(n.children, pos, prio)
    {
      MovedAt(n.children, pos, newPos, c, newPos - 1);
      MovedStep(n.children, pos, newPos, c);
      children := children[newPos - 1 := children[newPos]][newPos := children[newPos - 1]];
      newPos := newPos - 1;
    }
    if newPos > 0 {
      MovedAt(n.children, pos, newPos, c, newPos - 1);
    }
    var indices := n.indices;
    if newPos != pos {
      indices := n.indices[..newPos] + n.indices[pos..pos + 1] + n.indices[newPos..pos] + n.indices[pos + 1..];
    } else {
      assert n.indices == Moved(n.indices, pos, pos, n.indices[pos]);
    }
    assert n.indices[pos..pos + 1] == [n.indices[pos]];
    MovedAt(n.children, pos, newPos, c, newPos);
    r := n.(children := children, indices := indices);
  }

  lemma MovedStep<T>(s: seq<T>, pos: nat, k: nat, x: T)
    requires 0 < k <= pos < |s|
    ensures var m := Moved(s, pos, k, x); Moved(s, pos, k - 1, x) == m[k - 1 := m[k]][k := m[k - 1]]
  {
    var m, m' := Moved(s, pos, k, x), Moved(s, pos, k - 1, x);
    forall i | 0 <= i < |s|
      ensures m'[i] == m[k - 1 := m[k]][k := m[k - 1]][i]
    {
      MovedAt(s, pos, k, x, i);
      MovedAt(s, pos, k - 1, x, i);
      MovedAt(s, pos, k, x, k);
      MovedAt(s, pos, k, x, k - 1);
    }
  }

  /** Parameters found so far, put before those of the rest. */
  ghost function Prepended(p: seq<Pair>, m: Option<Match>): Option<Match> {
    if m.None? then None else Some(Match(m.value.handle, p + m.value.params))
  }

  lemma PrependedOne(p: seq<Pair>, x: Pair, m: Option<Match>)
    ensures Prepended(p, WithParam(x, m)) == Prepended(p + [x], m)
  {
    if m.Some? {
      assert p + ([x] + m.value.params) == p + [x] + m.value.params;
    }
  }

  /** The capacity that the slice of parameters is made with: that of the first wildcard met. */
  ghost function Room(n: Node, path: string): nat
    decreases n
  {
    if |path| <= |n.path| || !(n.path <= path) then 0
    else if n.wildChild then if n.children == [] then 0 else n.children[0].maxParams
    else
      var k := IndexOf(n.indices, path[|n.path|]);
      if k < |n.indices| && k < |n.children| then Room(n.children[k], path[|n.path|..]) else 0
  }

  lemma RoomWild(n: Node, path: string)
    requires |path| > |n.path| && n.path <= path && n.wildChild && n.children != []
    ensures Room(n, path) == n.children[0].maxParams
  {
  }

  lemma RoomChild(n: Node, path: string)
    requires |path| > |n.path| && n.path <= path && !n.wildChild && |n.indices| == |n.children|
    ensures var k := IndexOf(n.indices, path[|n.path|]);
      Room(n, path) == if k < |n.indices| then Room(n.children[k], path[|n.path|..]) else 0
  {
  }

  /**
    * The lookup, with the parameters collected on the way, found or not: their slice never
    * outgrows the capacity that it was made with.
    */
  method GetValue(root: Node, path: string) returns (found: Option<Match>, p: seq<Pair>)
    requires Valid(root) && Sound(root)
    ensures found == Get(root, path) && |p| <= Room(root, path)
    ensures found.Some? ==> found.value.params == p
  {
    hide Formed, Sound, DeepAtMost, Get, Valid, IndexOf, SegLen, Room;
    ValidFormed(root);
    var n, path0, made, capacity: nat := root, path, false, 0;
    p := [];
    PrependedNone(Get(root, path));
    while true
      invariant Formed(n) && n.kind != Param && Sound(n)
      invariant Get(root, path) == Prepended(p, Get(n, path0))
      invariant if made then |p| <= capacity == Room(root, path) && DeepAtMost(n, capacity - |p|)
                else p == [] && Room(n, path0) == Room(root, path)
      decreases n
    {
      FormedParts(n);
      SoundParts(n);
      if |path0| > |n.path| {
        if !(n.path <= path0) {
          GetBeside(n, path0);
          return None, p;
        }
        var rest := path0[|n.path|..];
        if !n.wildChild {
          StaticPaths(n);
          GetChild(n, path0);
          RoomChild(n, path0);
          var k := FindIndex(n.indices, rest[0]);
          if k == |n.indices| {
            return None, p;
          }
          if made {
            DeepParts(n, capacity - |p|);
          }
          n, path0 := n.children[k], rest;
        } else {
          WildParts(n);
          var c := n.children[0];
          FormedParts(c);
          ParamBelow(c);
          SoundParts(c);
          GetWild(n, path0);
          RoomWild(n, path0);
          if made {
            DeepParts(n, capacity - |p|);
          }
          var end := FindSlash(rest);
          if !made {
            made, capacity := true, c.maxParams;
          }
          DeepParts(c, capacity - |p|);
          assert |p| + 1 <= capacity;
          ghost var p0 := p;
          p := p + [Pair(c.path[1..], rest[..end])];
          if end < |rest| {
            if c.children == [] {
              return None, p;
            }
            PrependedOne(p0, Pair(c.path[1..], rest[..end]), Get(c.children[0], rest[end..]));
            SoundParts(c);
            FormedParts(c.children[0]);
            n, path0 := c.children[0], rest[end..];
          } else {
            if c.handle.Some? {
              return Some(Match(c.handle.value, p)), p;
            }
            return None, p;
          }
        }
      } else {
        GetHere(n, path0);
        if path0 == n.path && n.handle.Some? {
          assert p + [] == p;
          return Some(Match(n.handle.value, p)), p;
        }
        return None, p;
      }
    }
  }

  lemma PrependedNone(m: Option<Match>)
    ensures Prepended([], m) == m
  {
    if m.Some? {
      assert [] + m.value.params == m.value.params;
    }
  }

  method FindIndex(indices: string, c: char) returns (k: nat)
    ensures k == IndexOf(indices, c)
  {
    k := 0;
    while k < |indices| && indices[k] != c
      invariant k <= |indices| && forall i :: 0 <= i < k ==> indices[i] != c
    {
      k := k + 1;
    }
  }

  method FindSlash(path: string) returns (end: nat)
    ensures end == SegLen(path)
  {
    end := 0;
    while end < |path| && path[end] != '/'
      invariant end <= |path| && forall i :: 0 <= i < end ==> path[i] != '/'
    {
      end := end + 1;
    }
    SegLenIs(path, end);
  }

  /** The count that registration starts with. */
  method CountParams(path: string) returns (n: nat)
    ensures n == Counted(path) <= 255
  {
    n := 0;
    for i := 0 to |path|
      invariant n + Marks(path[i..]) == Marks(path)
    {
      assert path[i..][1..] == path[i + 1..];
      if path[i] != ':' && path[i] != '*' {
        continue;
      }
      n := n + 1;
    }
    assert path[|path|..] == "";
    if n >= 255 {
      n := 255;
    }
  }

  // ----- More wildcards than the count can hold -----

  /** A pattern of `k` wildcards. */
  function Many(k: nat): string {
    if k == 0 then "" else "/:a" + Many(k - 1)
  }

  /** A path that fills it. */
  function ManyFilled(k: nat): string {
    if k == 0 then "" else "/b" + ManyFilled(k - 1)
  }

  lemma {:induction false} ManyParts(k: nat)
    ensures Wilds(Many(k)) == k && '*' !in Many(k) && |Many(k)| == 3 * k && |ManyFilled(k)| == 2 * k
    ensures k > 0 ==> Many(k)[0] == '/' && ManyFilled(k)[0] == '/'
    ensures k > 0 ==>
      WildAt(Many(k)) == 1 && SegLen(Many(k)[1..]) == 2 && Many(k)[1..3] == ":a" && Many(k)[3..] == Many(k - 1)
    ensures k > 0 ==> SegLen(ManyFilled(k)[1..]) == 1 && ManyFilled(k)[2..] == ManyFilled(k - 1)
  {
    if k > 0 {
      ManyParts(k - 1);
      WildsConcat("/:a", Many(k - 1));
      var m, f := Many(k), ManyFilled(k);
      assert m[1] == ':' && m[2] == 'a' && m[3..] == Many(k - 1);
      SegLenIs(m[1..], 2);
      SegLenIs(f[1..], 1);
      assert WildAt(m[1..]) == 0;
    }
  }

  ghost function NextBlank(np: nat): Node
    requires np > 0
  {
    EMPTY.(maxParams := np - 1, priority := 1)
  }

  lemma InsertManyIs(n: Node, np: nat, k: nat, h: int)
    requires Blank(n) && 0 < np <= k && Wilds(Many(k)) == k && Wilds(Many(k - 1)) == k - 1
    ensures InsertChild(n, np, Many(k), h) ==
      if k == 1 then
        Some(n.(path := "/", wildChild := true, children := [Node(":a", false, Param, np, "", [], Some(h), 1)]))
      else match InsertChild(NextBlank(np), np - 1, Many(k - 1), h)
        case None => None
        case Some(c) =>
          Some(n.(path := "/", wildChild := true, children := [Node(":a", false, Param, np, "", [c], None, 1)]))
  {
    hide Many, Wilds, WildAt, SegLen, ManyFilled;
    ManyParts(k);
    assert Many(k)[..1] == "/";
    assert Many(k)[2..3] == Many(k)[1..3][1..];
    ManyNone();
  }

  lemma ManyNone()
    ensures Many(0) == "" && ManyFilled(0) == "" && forall k: nat :: Many(k) == "" ==> k == 0
  {
  }

  lemma GetMany(r: Node, c: Node, k: nat)
    requires k > 0 && r.path == "/" && r.wildChild && r.children == [c]
    ensures k == 1 ==> (Get(r, ManyFilled(k)).Some? <==> c.handle.Some?)
    ensures k > 1 && c.children != [] ==> (Get(r, ManyFilled(k)).Some? <==> Get(c.children[0], ManyFilled(k - 1)).Some?)
  {
    hide ManyFilled, SegLen;
    ManyParts(k);
    ManyNone();
    var f := ManyFilled(k);
    assert f[|r.path|..] == f[1..] && f[1..][1..] == f[2..];
  }

  /** What a count of `np` makes of it is found exactly when the count is the whole number. */
  lemma {:induction false} InsertMany(n: Node, np: nat, k: nat, h: int)
    requires Blank(n) && np <= k && k > 0 && Wilds(Many(k)) == k
    ensures var o := InsertChild(n, np, Many(k), h);
      o.Some? && (Get(o.value, ManyFilled(k)).Some? <==> np == k)
    decreases k
  {
    hide Many, ManyFilled, InsertChild, Get, Wilds, Blank;
    ManyParts(k);
    if np == 0 {
      InsertNone(n, Many(k), h);
      GetShort(InsertChild(n, 0, Many(k), h).value, ManyFilled(k));
    } else {
      ManyParts(k - 1);
      InsertManyIs(n, np, k, h);
      if k > 1 {
        BlankEmpty(np - 1);
        InsertMany(NextBlank(np), np - 1, k - 1, h);
      }
      var r := InsertChild(n, np, Many(k), h).value;
      GetMany(r, r.children[0], k);
    }
  }

  lemma InsertNone(n: Node, path: string, h: int)
    ensures InsertChild(n, 0, path, h) == Some(n.(path := path, handle := Some(h)))
  {
  }

  lemma GetShort(n: Node, path: string)
    requires |path| < |n.path|
    ensures Get(n, path) == None
  {
  }

  /** A first route with more than 255 wildcards is registered without a panic, and lost. */
  lemma ManyFound(k: nat, h: int)
    requires k > 0
    ensures '*' !in Many(k)
    ensures var o := AddRoute(EMPTY, Many(k), h);
      o.Some? && (Get(o.value, ManyFilled(k)).Some? <==> k <= 255)
  {
    hide Many, ManyFilled, InsertChild, Get, Wilds, Marks;
    ManyParts(k);
    MarksAreWilds(Many(k));
    InsertMany(EMPTY.(priority := 1), Counted(Many(k)), k, h);
    var o := InsertChild(EMPTY.(priority := 1), Counted(Many(k)), Many(k), h);
    RootGets(o.value, ManyFilled(k));
  }

  lemma RootGets(n: Node, path: string)
    ensures Get(n.(kind := Root), path) == Get(n, path)
  {
  }

  // ----- Exactly which first routes are found -----

  /** A path that fills a pattern, every wildcard with the same letter, and its parameters. */
  function FilledPath(pat: string): string
    decreases |pat|
  {
    if pat == "" then ""
    else if pat[0] == ':' then "b" + FilledPath(pat[SegLen(pat)..])
    else [pat[0]] + FilledPath(pat[1..])
  }

  function FilledParams(pat: string): seq<Pair>
    decreases |pat|
  {
    if pat == "" then []
    else if pat[0] == ':' then [Pair(pat[1..SegLen(pat)], "b")] + FilledParams(pat[SegLen(pat)..])
    else FilledParams(pat[1..])
  }

  lemma {:induction false} FilledFills(pat: string)
    ensures Fills(pat, FilledPath(pat), FilledParams(pat))
    decreases |pat|
  {
    hide SegLen;
    if pat != "" {
      var path, ps := FilledPath(pat), FilledParams(pat);
      if pat[0] == ':' {
        SegPositive(pat);
        var rest := pat[SegLen(pat)..];
        FilledFills(rest);
        assert path[|ps[0].value|..] == FilledPath(rest) && ps[1..] == FilledParams(rest);
      } else {
        FilledFills(pat[1..]);
        assert path[1..] == FilledPath(pat[1..]);
      }
    }
  }

  lemma SegPositive(s: string)
    requires s != "" && s[0] != '/'
    ensures SegLen(s) > 0
  {
  }

  lemma {:induction false} FillsSome(pat: string, path: string, ps: seq<Pair>)
    requires ':' in pat && Fills(pat, path, ps)
    ensures ps != []
    decreases |pat|
  {
    if pat[0] != ':' {
      assert ':' in pat[1..];
      FillsSome(pat[1..], path[1..], ps);
    }
  }

  /** A pattern that has more wildcards than were counted is filled with more parameters. */
  lemma {:induction false} FillsMore(n: Node, np: nat, pat: string, h: int, path: string, ps: seq<Pair>)
    requires np < Wilds(pat) && InsertChild(n, np, pat, h).Some? && Fills(pat, path, ps)
    ensures |ps| > np
    decreases |pat|
  {
    hide *;
    if np == 0 {
      WildsNone(pat);
      FillsSome(pat, path, ps);
    } else {
      var pre, name, rest := InsertParts(n, np, pat, h);
      SegmentParts(pat, pre, name, rest);
      assert pre + name + rest == pre + (name + rest);
      FillsStatic(pre, name + rest, path, ps);
      FillsWild(name, rest, path[|pre|..], ps);
      WildsNone(rest);
      FillsMore(EMPTY.(maxParams := np - 1, priority := 1), np - 1, rest, h, path[|pre|..][|ps[0].value|..], ps[1..]);
    }
  }

  /** What was made from a count of `np` never yields more parameters. */
  lemma {:induction false} InsertFew(n: Node, np: nat, pat: string, h: int, path: string)
    requires Blank(n) && np <= Wilds(pat) && InsertChild(n, np, pat, h).Some?
    ensures var m := Get(InsertChild(n, np, pat, h).value, path); m.Some? ==> |m.value.params| <= np
    decreases |pat|
  {
    hide *;
    BlankIs(n);
    if np == 0 {
      InsertNone(n, pat, h);
      GetLeaf(InsertChild(n, 0, pat, h).value, path);
    } else {
      var pre, name, rest := InsertParts(n, np, pat, h);
      SegmentParts(pat, pre, name, rest);
      var r := InsertChild(n, np, pat, h).value;
      if rest != "" {
        BlankEmpty(np - 1);
        forall q ensures var m := Get(r.children[0].children[0], q); m.Some? ==> |m.value.params| <= np - 1 {
          InsertFew(EMPTY.(maxParams := np - 1, priority := 1), np - 1, rest, h, q);
        }
      }
      GetOneMore(r, r.children[0], path, np);
    }
  }

  lemma BlankIs(n: Node)
    requires Blank(n)
    ensures n.children == [] && n.indices == "" && !n.wildChild
  {
  }

  lemma GetLeaf(n: Node, path: string)
    requires n.children == [] && !n.wildChild
    ensures Get(n, path).Some? ==> Get(n, path).value.params == []
  {
  }

  lemma GetOneMore(r: Node, c: Node, path: string, np: nat)
    requires r.wildChild && r.children == [c] && np > 0
    requires c.children != [] ==>
      forall q :: var m := Get(c.children[0], q); m.Some? ==> |m.value.params| <= np - 1
    ensures Get(r, path).Some? ==> |Get(r, path).value.params| <= np
  {
    hide SegLen;
  }

  /** Every path that fills a pattern is found, with its values. */
  ghost predicate AllFound(n: Node, pat: string, h: int) {
    forall path, ps :: Fills(pat, path, ps) ==> Get(n, path) == Some(Match(h, ps))
  }

  /**
    * For a first route that is registered without a panic: all paths that fill it are found
    * with their values if and only if it has at most 255 wildcards.
    */
  lemma FirstRouteFound(pat: string, h: int)
    requires '*' !in pat && AddRoute(EMPTY, pat, h).Some?
    ensures AllFound(AddRoute(EMPTY, pat, h).value, pat, h) <==> Wilds(pat) <= 255
  {
    hide Fills, Get, Wilds, Marks, InsertChild, Blank;
    var t := AddRoute(EMPTY, pat, h).value;
    MarksAreWilds(pat);
    if Wilds(pat) <= 255 {
      forall path, ps | Fills(pat, path, ps) ensures Get(t, path) == Some(Match(h, ps)) {
        FirstFound(pat, h, path, ps);
      }
    } else {
      var n := EMPTY.(priority := 1);
      BlankRaised();
      var path, ps := FilledPath(pat), FilledParams(pat);
      FilledFills(pat);
      FillsMore(n, 255, pat, h, path, ps);
      InsertFew(n, 255, pat, h, path);
      RootGets(InsertChild(n, 255, pat, h).value, path);
    }
  }

  lemma BlankRaised()
    ensures Blank(EMPTY.(priority := 1))
  {
  }

  lemma FirstFound(pat: string, h: int, path: string, ps: seq<Pair>)
    requires '*' !in pat && AddRoute(EMPTY, pat, h).Some? && Wilds(pat) <= 255 && Fills(pat, path, ps)
    ensures Get(AddRoute(EMPTY, pat, h).value, path) == Some(Match(h, ps))
  {
    hide Get, Wilds, Marks, Walk, InsertChild;
    if pat == "" {
      EmptyRoute(h);
    } else {
      var routes := [Route(pat, h)];
      assert routes[..0] == [];
      RouteFinds(routes, pat, path, h, ps);
    }
  }

  lemma EmptyRoute(h: int)
    ensures AddRoute(EMPTY, "", h).Some? && Get(AddRoute(EMPTY, "", h).value, "") == Some(Match(h, []))
  {
  }
}
