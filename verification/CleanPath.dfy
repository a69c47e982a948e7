/**
  * The path cleaner of `cement/httprouter/path.go`: elements are split off, dropped and popped,
  * and the loop that works in a lazily made buffer computes the same.
  */
module CleanPath {
  import opened Slashes
  // ----- Splitting and joining -----

  /** The elements between the slashes, empty ones among them. */
  function Split(s: string): (es: seq<string>)
    ensures es != []
    decreases |s|
  {
    var k := SegLen(s);
    if k == |s| then [s] else [s[..k]] + Split(s[k + 1..])
  }

  /** An element that stays in the result until a later `..` takes it away. */
  predicate Real(e: string) {
    e != "" && e != "." && e != ".."
  }

  ghost predicate Name(e: string) {
    Real(e) && '/' !in e
  }

  ghost predicate Names(es: seq<string>) {
    forall i :: 0 <= i < |es| ==> Name(es[i])
  }

  function Push(st: seq<string>, e: string): seq<string> {
    if Real(e) then st + [e] else if e == ".." && st != [] then st[..|st| - 1] else st
  }

  /** Takes the elements in order: real ones are kept, and `..` takes the last one away. */
  function Resolve(st: seq<string>, es: seq<string>): seq<string>
    decreases |es|
  {
    if es == [] then st else Resolve(Push(st, es[0]), es[1..])
  }

  /** Every element with a slash before it. */
  function Join(es: seq<string>): string {
    if es == [] then "" else "/" + es[0] + Join(es[1..])
  }

  predicate Slashed(p: string) {
    |p| > 2 && p[|p| - 1] == '/'
  }

  /** A path ends as a directory with a slash after its second octet, or with the element `.`. */
  predicate Directory(p: string) {
    var es := Split(p);
    Slashed(p) || es[|es| - 1] == "."
  }

  function Rooted(st: seq<string>): string {
    if st == [] then "/" else Join(st)
  }

  function Cleaned(p: string): string {
    var st := Resolve([], Split(p));
    if st != [] && Directory(p) then Join(st) + "/" else Rooted(st)
  }

  // ----- Splitting step by step -----

  lemma SplitStep(s: string)
    ensures Split(s) == if SegLen(s) == |s| then [s] else [s[..SegLen(s)]] + Split(s[SegLen(s) + 1..])
  {
    hide SegLen;
  }

  lemma SplitSlash(s: string)
    requires s != "" && s[0] == '/'
    ensures Split(s) == [""] + Split(s[1..])
  {
    assert s[..0] == "";
  }

  /** Taking one whole element off the front. */
  lemma ResolveElement(st: seq<string>, s: string, k: nat)
    requires k == SegLen(s)
    ensures Resolve(st, Split(s)) == Resolve(Push(st, s[..k]), Split(s[k..]))
  {
    if k == |s| {
      assert s[..k] == s && s[k..] == "";
      assert Split("") == [""];
      assert Resolve(st, [s]) == Push(st, s);
      assert Push(Push(st, s), "") == Push(st, s);
    } else {
      SplitSlash(s[k..]);
      assert s[k..][1..] == s[k + 1..];
      assert ([s[..k]] + Split(s[k + 1..]))[1..] == Split(s[k + 1..]);
      assert ([""] + Split(s[k + 1..]))[1..] == Split(s[k + 1..]);
    }
  }

  lemma ResolveSlash(st: seq<string>, s: string)
    requires s != "" && s[0] == '/'
    ensures Resolve(st, Split(s)) == Resolve(st, Split(s[1..]))
  {
    SplitSlash(s);
    assert ([""] + Split(s[1..]))[1..] == Split(s[1..]);
  }

  lemma {:induction false} ResolveNames(st: seq<string>, es: seq<string>)
    requires Names(st) && forall i :: 0 <= i < |es| ==> '/' !in es[i]
    ensures Names(Resolve(st, es))
    decreases |es|
  {
    if es != [] {
      ResolveNames(Push(st, es[0]), es[1..]);
    }
  }

  lemma {:induction false} SplitNames(s: string)
    ensures forall i :: 0 <= i < |Split(s)| ==> '/' !in Split(s)[i]
    decreases |s|
  {
    if SegLen(s) < |s| {
      SplitNames(s[SegLen(s) + 1..]);
    }
  }

  // ----- Joining step by step -----

  lemma {:induction false} JoinAdd(es: seq<string>, e: string)
    ensures Join(es + [e]) == Join(es) + "/" + e
  {
    if es == [] {
      assert es + [e] == [e];
      assert [e][1..] == [];
    } else {
      assert (es + [e])[1..] == es[1..] + [e];
      JoinAdd(es[1..], e);
    }
  }

  lemma {:induction false} JoinSize(es: seq<string>)
    requires Names(es)
    ensures es != [] ==> |Join(es)| >= 2 && Join(es)[0] == '/'
  {
    if es != [] {
      assert Name(es[0]);
    }
  }

  // ----- The last element -----

  function Last(s: string): string {
    Split(s)[|Split(s)| - 1]
  }

  lemma LastStep(s: string)
    ensures Last(s) == if SegLen(s) == |s| then s else Last(s[SegLen(s) + 1..])
  {
    hide SegLen, Split;
    SplitStep(s);
  }

  lemma LastSlash(s: string)
    requires s != "" && s[0] == '/'
    ensures Last(s) == Last(s[1..])
  {
    SplitSlash(s);
  }

  lemma {:induction false} LastAfter(a: string, e: string)
    requires '/' !in e
    ensures Last(a + "/" + e) == e
    decreases |a|
  {
    var s := a + "/" + e;
    var k := SegLen(s);
    LastStep(s);
    assert s[|a|] == '/';
    if k < |a| {
      assert s[k + 1..] == a[k + 1..] + "/" + e;
      LastAfter(a[k + 1..], e);
    } else {
      assert s[k + 1..] == e;
      SegLenIs(e, |e|);
      LastStep(e);
    }
  }

  // ----- Cleaned paths -----

  /** A rooted path of real elements, with or without a slash at its end. */
  ghost predicate Canonical(p: string) {
    exists st :: Spells(st, p)
  }

  ghost predicate Spells(st: seq<string>, p: string) {
    Names(st) && (p == Rooted(st) || (st != [] && p == Join(st) + "/"))
  }

  lemma CleanedCanonical(p: string)
    ensures Canonical(Cleaned(p))
  {
    SplitNames(p);
    ResolveNames([], Split(p));
    assert Spells(Resolve([], Split(p)), Cleaned(p));
  }

  /** A joined path begins with a slash and its first element. */
  lemma JoinFirst(es: seq<string>, tail: string)
    requires Names(es) && es != [] && (tail == "" || tail == "/")
    ensures var s, t := Join(es) + tail, es[0] + (Join(es[1..]) + tail);
      && s != "" && s[0] == '/' && s[1..] == t && SegLen(t) == |es[0]|
      && t[..|es[0]|] == es[0] && t[|es[0]|..] == Join(es[1..]) + tail
  {
    hide SegLen;
    assert Name(es[0]);
    JoinSize(es[1..]);
    FirstParts(es[0], Join(es[1..]), tail);
    SegLenIs(es[0] + (Join(es[1..]) + tail), |es[0]|);
  }

  lemma FirstParts(e: string, j: string, tail: string)
    ensures var s, t := "/" + e + j + tail, e + (j + tail);
      s[0] == '/' && s[1..] == t && t[..|e|] == e && t[|e|..] == j + tail
    ensures '/' !in e ==> forall i :: 0 <= i < |e| ==> (e + (j + tail))[i] != '/'
    ensures |j + tail| > 0 ==> (e + (j + tail))[|e|] == if j == "" then tail[0] else j[0]
  {
  }

  lemma PushName(st: seq<string>, e: string)
    requires Name(e)
    ensures Push(st, e) == st + [e]
  {
  }

  lemma ResolveEmpty(st: seq<string>)
    ensures Resolve(st, Split("")) == st && Resolve(st, Split("/")) == st
  {
    assert Split("") == [""];
    ResolveSlash(st, "/");
    assert "/"[1..] == "";
  }

  lemma JoinNone()
    ensures Join([]) == ""
  {
  }

  lemma {:induction false} ResolveJoin(base: seq<string>, es: seq<string>, tail: string)
    requires Names(es) && (tail == "" || tail == "/")
    ensures Resolve(base, Split(Join(es) + tail)) == base + es
    decreases |es|
  {
    hide *;
    if es == [] {
      ResolveEmpty(base);
      JoinNone();
      assert "" + tail == tail && base + [] == base;
    } else {
      var e, rest := es[0], Join(es[1..]) + tail;
      JoinFirst(es, tail);
      NamesTail(es);
      ResolveSlash(base, Join(es) + tail);
      ResolveElement(base, e + rest, |e|);
      PushName(base, e);
      ResolveJoin(base + [e], es[1..], tail);
      assert base + [e] + es[1..] == base + es;
    }
  }

  lemma NamesTail(es: seq<string>)
    requires Names(es) && es != []
    ensures Name(es[0]) && Names(es[1..])
  {
  }

  lemma DirectoryJoin(st: seq<string>)
    requires Names(st) && st != []
    ensures !Directory(Join(st)) && Directory(Join(st) + "/")
  {
    JoinSize(st);
    var front, e := st[..|st| - 1], st[|st| - 1];
    assert st == front + [e];
    assert Name(e);
    JoinAdd(front, e);
    LastAfter(Join(front), e);
    var p := Join(st);
    assert p[|p| - 1] == e[|e| - 1];
  }

  /** What is already clean stays as it is. */
  lemma CanonicalStays(p: string)
    requires Canonical(p)
    ensures Cleaned(p) == p
  {
    var st :| Spells(st, p);
    if st == [] {
      assert Join([]) + "/" == "/";
      ResolveJoin([], [], "/");
    } else {
      DirectoryJoin(st);
      var tail := if p == Join(st) then "" else "/";
      assert Join(st) + "" == Join(st);
      ResolveJoin([], st, tail);
      assert [] + st == st;
    }
  }

  /** The clean paths are exactly the rooted paths of real elements. */
  lemma CleanFixes(p: string)
    ensures Cleaned(p) == p <==> Canonical(p)
  {
    CleanedCanonical(p);
    if Canonical(p) {
      CanonicalStays(p);
    }
  }

  lemma Idempotent(p: string)
    ensures Cleaned(Cleaned(p)) == Cleaned(p)
  {
    CleanedCanonical(p);
    CanonicalStays(Cleaned(p));
  }

  // ----- The loop -----

  /** The first `w` octets of the result: of the path itself until a buffer is needed. */
  ghost function Text(buf: array?<char>, p: string, w: nat): string
    requires w <= if buf == null then |p| else buf.Length
    reads buf
  {
    if buf == null then p[..w] else buf[..w]
  }

  /** Writes one octet; the buffer is made when it would first differ from the path. */
  method BufApp(buf: array?<char>, p: string, w: nat, c: char) returns (b: array?<char>)
    requires w < if buf == null then |p| else buf.Length
    modifies buf
    ensures if buf != null then b == buf else b == null || (fresh(b) && b.Length == |p|)
    ensures Text(b, p, w + 1) == old(Text(buf, p, w)) + [c]
  {
    b := buf;
    if b == null {
      if p[w] == c {
        assert p[..w + 1] == p[..w] + [c];
        return;
      }
      b := new char[|p|](i requires 0 <= i < |p| => p[i]);
      assert b[..w] == p[..w];
    }
    b[w] := c;
    assert b[..w + 1] == b[..w] + [c];
  }

  /** Goes back to the slash before the last element, or to the first slash. */
  method Backtrack(buf: array?<char>, p: string, w0: nat, ghost st: seq<string>) returns (w: nat)
    requires w0 <= if buf == null then |p| else buf.Length
    requires Names(st) && Text(buf, p, w0) == Rooted(st) && w0 > 1
    ensures 1 <= w <= w0 && st != [] && Text(buf, p, w) == Rooted(st[..|st| - 1])
  {
    ghost var front, e := st[..|st| - 1], st[|st| - 1];
    LastTaken(st);
    ghost var t := Text(buf, p, w0);
    w := w0 - 1;
    while w > 1 && (if buf == null then p[w] else buf[w]) != '/'
      invariant 1 <= w < w0 && |Join(front)| <= w
    {
      assert (if buf == null then p[w] else buf[w]) == t[w];
      w := w - 1;
    }
    assert (if buf == null then p[w] else buf[w]) == t[w];
    assert Text(buf, p, w) == t[..w];
  }

  lemma LastTaken(st: seq<string>)
    requires Names(st) && |Rooted(st)| > 1
    ensures st != []
    ensures var front, e := st[..|st| - 1], st[|st| - 1];
      && Rooted(st) == Join(front) + "/" + e && '/' !in e && |e| > 0
      && Rooted(front) == (if front == [] then Rooted(st)[..1] else Rooted(st)[..|Join(front)|])
      && (front != [] ==> |Join(front)| >= 2)
  {
    var front, e := st[..|st| - 1], st[|st| - 1];
    assert st == front + [e];
    assert Name(e);
    JoinAdd(front, e);
    JoinSize(front);
  }

  /**
    * Copies the element at `r0`, after a slash unless the result is still the root. A path
    * without its first slash has one octet to spare in its buffer.
    */
  method CopyElement(buf0: array?<char>, p: string, w0: nat, r0: nat, ghost spare: nat, ghost st: seq<string>)
    returns (buf: array?<char>, w: nat, r: nat)
    requires if buf0 == null then spare == 0 else buf0.Length == |p| + spare
    requires 1 <= w0 <= r0 + spare && r0 < |p| && (w0 > 1 ==> w0 < r0 + spare)
    requires Names(st) && Text(buf0, p, w0) == Rooted(st) && p[r0] != '/'
    modifies buf0
    ensures if buf0 != null then buf == buf0 else buf == null || (fresh(buf) && buf.Length == |p|)
    ensures r == r0 + SegLen(p[r0..]) && 1 <= w <= r + spare && (r < |p| ==> p[r] == '/')
    ensures Text(buf, p, w) == Rooted(st + [p[r0..r]])
  {
    hide *;
    buf, w, r := buf0, w0, r0;
    RootedSize(st);
    TextSize(buf, p, w);
    if w > 1 {
      buf := BufApp(buf, p, w, '/');
      w := w + 1;
    }
    ghost var start := if st == [] then "/" else Join(st) + "/";
    assert Text(buf, p, w) == start + p[r0..r] by {
      assert p[r0..r] == "";
    }
    while r < |p| && p[r] != '/'
      invariant r0 <= r <= |p| && forall i :: r0 <= i < r ==> p[i] != '/'
      invariant if buf0 != null then buf == buf0 else buf == null || (fresh(buf) && buf.Length == |p|)
      invariant 1 <= w <= r + spare
      invariant Text(buf, p, w) == start + p[r0..r]
    {
      buf := BufApp(buf, p, w, p[r]);
      Appended(start, p, r0, r);
      w := w + 1;
      r := r + 1;
    }
    SpanAt(p, r0, r);
    RootedAdd(st, p[r0..r]);
  }

  lemma Appended(start: string, p: string, r0: nat, r: nat)
    requires r0 <= r < |p|
    ensures start + p[r0..r] + [p[r]] == start + p[r0..r + 1]
  {
  }

  lemma SpanAt(p: string, r0: nat, r: nat)
    requires r0 <= r <= |p| && (r < |p| ==> p[r] == '/') && forall i :: r0 <= i < r ==> p[i] != '/'
    ensures SegLen(p[r0..]) == r - r0
  {
    SegLenIs(p[r0..], r - r0);
  }

  lemma RootedSize(st: seq<string>)
    requires Names(st)
    ensures |Rooted(st)| > 1 <==> st != []
    ensures st == [] ==> Rooted(st) == "/"
    ensures st != [] ==> Rooted(st) == Join(st)
  {
    JoinSize(st);
  }

  lemma RootedAdd(st: seq<string>, e: string)
    ensures Rooted(st + [e]) == (if st == [] then "/" else Join(st) + "/") + e
  {
    JoinAdd(st, e);
  }

  lemma EmptyCleaned()
    ensures Cleaned("") == "/"
  {
    ResolveEmpty([]);
  }

  /** Where the loop is: the elements before `r` are resolved to `st`. */
  ghost predicate Reached(p: string, r: nat, st: seq<string>, trailing: bool) {
    && r <= |p| && Names(st) && Resolve(st, Split(p[r..])) == Resolve([], Split(p))
    && (if r < |p| then trailing == Slashed(p) && Last(p[r..]) == Last(p) else trailing == Directory(p))
  }

  lemma StartReached(p: string)
    requires p != ""
    ensures Reached(p, 0, [], Slashed(p))
    ensures p[0] == '/' ==> Reached(p, 1, [], Slashed(p))
  {
    hide Split, Resolve, Last;
    assert p[0..] == p;
    if p[0] == '/' {
      SlashReached(p, 0, []);
    }
  }

  lemma SlashReached(p: string, r: nat, st: seq<string>)
    requires Reached(p, r, st, Slashed(p)) && r < |p| && p[r] == '/'
    ensures Reached(p, r + 1, st, Slashed(p))
  {
    hide Split, Resolve, Last;
    var s := p[r..];
    ResolveSlash(st, s);
    LastSlash(s);
    assert s[1..] == p[r + 1..];
    if r + 1 == |p| {
      LastOfEmpty(p[r + 1..]);
      DirectoryIs(p);
    }
  }

  lemma LastOfEmpty(s: string)
    requires s == ""
    ensures Last(s) == ""
  {
  }

  lemma DirectoryIs(p: string)
    ensures Directory(p) <==> Slashed(p) || Last(p) == "."
  {
  }

  /** After the element of `k` octets at `r`. */
  lemma ElementReached(p: string, r: nat, st: seq<string>, k: nat)
    requires Reached(p, r, st, Slashed(p)) && r + k <= |p| && k > 0
    requires (r + k < |p| ==> p[r + k] == '/') && forall i :: r <= i < r + k ==> p[i] != '/'
    requires Names(Push(st, p[r..r + k]))
    ensures Reached(p, r + k, Push(st, p[r..r + k]), Slashed(p) || (r + k == |p| && p[r..r + k] == "."))
    ensures r + k == |p| ==> !Slashed(p)
  {
    hide Split, Resolve, Last, Push, Names;
    TakeElement(st, p, r, k);
    if r + k == |p| {
      assert p[|p| - 1] != '/';
      DirectoryIs(p);
    }
  }

  lemma EndReached(p: string, st: seq<string>, trailing: bool)
    requires Reached(p, |p|, st, trailing)
    ensures Names(st) && trailing == Directory(p)
    ensures Cleaned(p) == if st != [] && trailing then Join(st) + "/" else Rooted(st)
  {
    hide Split, Resolve, Last;
    assert p[|p|..] == "";
    ResolveEmpty(st);
  }

  lemma ReachedNames(p: string, r: nat, st: seq<string>, trailing: bool)
    requires Reached(p, r, st, trailing)
    ensures Names(st) && (r < |p| ==> trailing == Slashed(p))
  {
  }

  lemma NamesPush(st: seq<string>, e: string)
    requires Names(st)
    ensures e == "." ==> Push(st, e) == st
    ensures e == ".." ==> Push(st, e) == (if st == [] then st else st[..|st| - 1]) && Names(Push(st, e))
    ensures Name(e) ==> Push(st, e) == st + [e] && Names(st + [e])
  {
  }

  lemma DotReached(p: string, r: nat, st: seq<string>)
    requires Reached(p, r, st, Slashed(p)) && r < |p| && p[r] == '.' && (r + 1 == |p| || p[r + 1] == '/')
    ensures Reached(p, r + 1, st, Slashed(p) || r + 1 == |p|)
  {
    hide *;
    assert p[r..r + 1] == ".";
    ReachedNames(p, r, st, Slashed(p));
    NamesPush(st, ".");
    ElementReached(p, r, st, 1);
  }

  lemma DotDotReached(p: string, r: nat, st: seq<string>)
    requires Reached(p, r, st, Slashed(p)) && r + 1 < |p| && p[r] == '.' && p[r + 1] == '.'
    requires r + 2 == |p| || p[r + 2] == '/'
    ensures Reached(p, r + 2, if st == [] then st else st[..|st| - 1], Slashed(p))
    ensures r + 2 == |p| ==> !Slashed(p)
  {
    hide *;
    assert p[r..r + 2] == "..";
    ReachedNames(p, r, st, Slashed(p));
    NamesPush(st, "..");
    ElementReached(p, r, st, 2);
  }

  lemma RealReached(p: string, r: nat, st: seq<string>, k: nat)
    requires Reached(p, r, st, Slashed(p)) && r < |p| && p[r] != '/' && k == SegLen(p[r..])
    requires !(p[r] == '.' && (r + 1 == |p| || p[r + 1] == '/'))
    requires !(p[r] == '.' && r + 1 < |p| && p[r + 1] == '.' && (r + 2 == |p| || p[r + 2] == '/'))
    ensures r + k <= |p| && Reached(p, r + k, st + [p[r..r + k]], Slashed(p))
    ensures r + k == |p| ==> !Slashed(p)
  {
    hide *;
    RealElement(p, r, k);
    ReachedNames(p, r, st, Slashed(p));
    NamesPush(st, p[r..r + k]);
    NotDot(p[r..r + k]);
    ElementReached(p, r, st, k);
  }

  method Clean(p: string) returns (s: string)
    ensures s == Cleaned(p)
  {
    hide *;
    if p == "" {
      EmptyCleaned();
      return "/";
    }
    var n := |p|;
    var buf: array?<char> := null;
    var r, w := 1, 1;
    StartReached(p);
    if p[0] != '/' {
      r := 0;
      buf := new char[n + 1];
      buf[0] := '/';
      assert buf[..1] == "/";
    } else {
      assert p[..1] == "/";
    }
    var trailing := n > 2 && p[n - 1] == '/';
    SlashedIs(p);
    ghost var st: seq<string> := [];
    ghost var spare := if buf == null then 0 else 1;
    StartText(buf, p);
    while r < n
      invariant Reached(p, r, st, trailing) && r <= n
      invariant if buf == null then spare == 0 else fresh(buf) && buf.Length == n + spare
      invariant 0 <= spare && 1 <= w <= r + spare && Text(buf, p, w) == Rooted(st)
      invariant w > 1 && r < n && p[r] != '/' ==> w < r + spare
      invariant w > 1 && r == n && trailing ==> w < r + spare
    {
      ReachedNames(p, r, st, trailing);
      RootedSize(st);
      TextSize(buf, p, w);
      ghost var k := SegLen(p[r..]);
      if p[r] == '/' {
        SlashReached(p, r, st);
        r := r + 1;
      } else if p[r] == '.' && r + 1 == n {
        DotReached(p, r, st);
        trailing := true;
        r := r + 1;
      } else if p[r] == '.' && p[r + 1] == '/' {
        DotReached(p, r, st);
        r := r + 1;
      } else if p[r] == '.' && p[r + 1] == '.' && (r + 2 == n || p[r + 2] == '/') {
        DotDotReached(p, r, st);
        r := r + 2;
        if w > 1 {
          w := Backtrack(buf, p, w, st);
          st := st[..|st| - 1];
        }
      } else {
        ghost var e := p[r..r + k];
        RealReached(p, r, st, k);
        buf, w, r := CopyElement(buf, p, w, r, spare, st);
        st := st + [e];
      }
    }
    EndReached(p, st, trailing);
    RootedSize(st);
    TextSize(buf, p, w);
    if trailing && w > 1 {
      buf := BufApp(buf, p, w, '/');
      w := w + 1;
    }
    TextIs(buf, p, w);
    if buf == null {
      return p[..w];
    }
    return buf[..w];
  }

  lemma SlashedIs(p: string)
    ensures Slashed(p) <==> |p| > 2 && p[|p| - 1] == '/'
  {
  }

  lemma StartText(buf: array?<char>, p: string)
    requires if buf == null then p != "" && p[..1] == "/" else buf.Length > 0 && buf[..1] == "/"
    ensures Text(buf, p, 1) == Rooted([]) == "/"
  {
  }

  lemma TextSize(buf: array?<char>, p: string, w: nat)
    requires w <= if buf == null then |p| else buf.Length
    ensures |Text(buf, p, w)| == w
  {
  }

  lemma TextIs(buf: array?<char>, p: string, w: nat)
    requires w <= if buf == null then |p| else buf.Length
    ensures Text(buf, p, w) == if buf == null then p[..w] else buf[..w]
  {
  }

  lemma NotDot(e: string)
    requires Name(e)
    ensures e != "."
  {
  }

  /** Taking the element of `k` octets at `r`. */
  lemma TakeElement(st: seq<string>, p: string, r: nat, k: nat)
    requires r + k <= |p| && k > 0 && (r + k < |p| ==> p[r + k] == '/') && forall i :: r <= i < r + k ==> p[i] != '/'
    ensures k == SegLen(p[r..])
    ensures Resolve(st, Split(p[r..])) == Resolve(Push(st, p[r..r + k]), Split(p[r + k..]))
    ensures r + k < |p| ==> Last(p[r + k..]) == Last(p[r..])
    ensures r + k == |p| ==> Last(p[r..]) == p[r..r + k]
  {
    hide *;
    var s := p[r..];
    assert forall i :: 0 <= i < k ==> s[i] == p[r + i];
    SegLenIs(s, k);
    ResolveElement(st, s, k);
    assert s[..k] == p[r..r + k] && s[k..] == p[r + k..];
    LastStep(s);
    if k < |s| {
      LastSlash(s[k..]);
      assert s[k..][1..] == s[k + 1..];
    } else {
      assert s == p[r..r + k];
    }
  }

  lemma RealElement(p: string, r: nat, k: nat)
    requires r < |p| && p[r] != '/' && k == SegLen(p[r..]) && !(p[r] == '.' && (r + 1 == |p| || p[r + 1] == '/'))
    requires !(p[r] == '.' && r + 1 < |p| && p[r + 1] == '.' && (r + 2 == |p| || p[r + 2] == '/'))
    ensures k > 0 && r + k <= |p| && Name(p[r..r + k]) && (r + k < |p| ==> p[r + k] == '/')
    ensures forall i :: r <= i < r + k ==> p[i] != '/'
  {
    var s := p[r..];
    assert s[0] == p[r];
    assert forall i :: 0 <= i < k ==> s[i] == p[r + i];
    assert forall i :: r <= i < r + k ==> p[i] == s[i - r];
  }
}
