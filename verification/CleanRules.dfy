/**
  * The four rules that the comment of `CleanPath` in `cement/httprouter/path.go` states, each for
  * every path, and the one family of paths for which three of them fail.
  */
module CleanRules {
  import opened Slashes
  import opened CleanPath

  lemma {:induction false} SplitConcat(a: string, b: string)
    ensures Split(a + "/" + b) == Split(a) + Split(b)
    decreases |a|
  {
    hide *;
    var p, k := a + "/" + b, SegLen(a);
    FirstSlash(a, b);
    SplitStep(p);
    SplitStep(a);
    if k < |a| {
      SplitConcat(a[k + 1..], b);
    }
  }

  lemma Cuts(a: string, b: string, k: nat)
    requires k <= |a|
    ensures var p := a + "/" + b;
      && |p| == |a| + 1 + |b| && p[..k] == a[..k] && p[k] == (if k < |a| then a[k] else '/')
      && (if k == |a| then p[k + 1..] == b else p[k + 1..] == a[k + 1..] + "/" + b)
  {
  }

  lemma FirstSlash(a: string, b: string)
    ensures var p, k := a + "/" + b, SegLen(a);
      && k <= |a| && SegLen(p) == k <= |p| && p[..k] == a[..k] && a[..|a|] == a
      && (if k == |a| then k + 1 <= |p| && p[k + 1..] == b
          else k + 1 <= |p| && p[k + 1..] == a[k + 1..] + "/" + b)
  {
    hide SegLen;
    var p, k := a + "/" + b, SegLen(a);
    Cuts(a, b, k);
    forall i | 0 <= i < k ensures p[i] != '/' {
      Cuts(a, b, i);
    }
    hide *;
    SegLenIs(p, k);
  }

  lemma {:induction false} ResolveConcat(st: seq<string>, x: seq<string>, y: seq<string>)
    ensures Resolve(st, x + y) == Resolve(Resolve(st, x), y)
    decreases |x|
  {
    if x == [] {
      assert x + y == y;
    } else {
      assert (x + y)[0] == x[0] && (x + y)[1..] == x[1..] + y;
      ResolveConcat(Push(st, x[0]), x[1..], y);
    }
  }

  lemma OneElement(e: string)
    requires '/' !in e
    ensures Split(e) == [e]
  {
    SegLenIs(e, |e|);
  }

  /** Elements that leave every path as it is. */
  ghost predicate Idle(es: seq<string>) {
    forall st :: Resolve(st, es) == st
  }

  /** What is between a slash and the rest of a path, when it makes no difference to the elements. */
  lemma SameElements(a: string, mid: string, b: string)
    requires Idle(Split(mid))
    ensures Resolve([], Split(a + "/" + mid + "/" + b)) == Resolve([], Split(a + "/" + b))
  {
    hide Split, Resolve;
    SplitConcat(a + "/" + mid, b);
    SplitConcat(a, mid);
    SplitConcat(a, b);
    assert Split(a) + Split(mid) + Split(b) == Split(a) + (Split(mid) + Split(b));
    ResolveConcat([], Split(a), Split(mid) + Split(b));
    ResolveConcat(Resolve([], Split(a)), Split(mid), Split(b));
    ResolveConcat([], Split(a), Split(b));
  }

  /** The paths of one octet and a slash, which lose the slash. */
  predicate Short(a: string, b: string) {
    b == "" && |a| == 1 && a != "/" && a != "."
  }

  lemma LastElement(x: string, b: string)
    ensures var es, fs := Split(x + "/" + b), Split(b); es[|es| - 1] == fs[|fs| - 1]
  {
    SplitConcat(x, b);
  }

  lemma ShortElements(a: string)
    requires |a| == 1
    ensures Resolve([], Split(a + "/")) == if a == "/" || a == "." then [] else [a]
  {
    assert a == [a[0]];
    assert a + "/" == a + "/" + "";
    SplitConcat(a, "");
    OneElement("");
    if a[0] == '/' {
      assert a == "" + "/" + "";
      SplitConcat("", "");
      assert Split(a + "/") == ["", "", ""];
      TwoMore([], "", "", "");
    } else {
      OneElement(a);
      assert Split(a + "/") == [a, ""];
      TwoMore([], a, "", "");
    }
  }

  lemma TwoMore(st: seq<string>, x: string, y: string, z: string)
    ensures Resolve(st, [x, y]) == Push(Push(st, x), y) && Resolve(st, [x, y, z]) == Push(Push(Push(st, x), y), z)
  {
    assert [x, y][1..] == [y] && [y][1..] == [];
    assert [x, y, z][1..] == [y, z] && [y, z][1..] == [z] && [z][1..] == [];
    assert Resolve(st, [x, y]) == Resolve(Push(st, x), [y]);
    assert Resolve(Push(st, x), [y]) == Resolve(Push(Push(st, x), y), []);
    assert Resolve(st, [x, y, z]) == Resolve(Push(st, x), [y, z]) == Resolve(Push(Push(st, x), y), [z]);
    assert Resolve(Push(Push(st, x), y), [z]) == Resolve(Push(Push(Push(st, x), y), z), []);
  }

  lemma SlashSlash()
    ensures Resolve([], Split("/" + "/")) == [] && Resolve([], Split("/")) == []
  {
    ShortElements("/");
    assert "" + "/" + "" == "/";
    SplitConcat("", "");
    OneElement("");
    TwoMore([], "", "", "");
  }

  /** What a path of a slash and an end can be when it has an element. */
  lemma NotShort(a: string, b: string)
    requires Resolve([], Split(a + "/" + b)) != [] && !Short(a, b)
    ensures b == "" ==> |a| >= 2
    ensures b != "" && b[|b| - 1] == '/' ==> |a| + |b| >= 2
  {
    hide Split, Resolve;
    SlashSlash();
    if |a| == 1 {
      ShortElements(a);
    }
    assert b == "" ==> a + "/" + b == a + "/";
    assert a == "" && b == "" ==> a + "/" + b == "/";
    assert |b| == 1 ==> b == [b[0]];
    assert a == "" && b == "/" ==> a + "/" + b == "/" + "/";
  }

  lemma SlashedEnd(x: string, b: string)
    ensures Slashed(x + "/" + b) <==> |x| + |b| >= 2 && (b == "" || b[|b| - 1] == '/')
  {
    var p := x + "/" + b;
    assert b == "" ==> p[|p| - 1] == '/';
    assert b != "" ==> p[|p| - 1] == b[|b| - 1];
  }

  /** Both paths end as directories or neither does, but for the short ones. */
  lemma SameEnd(a: string, x: string, b: string)
    requires |x| > |a|
    ensures Resolve([], Split(a + "/" + b)) != [] && !Short(a, b) ==>
      (Directory(x + "/" + b) <==> Directory(a + "/" + b))
  {
    hide Split, Resolve, Slashed;
    LastElement(x, b);
    LastElement(a, b);
    SlashedEnd(x, b);
    SlashedEnd(a, b);
    if Resolve([], Split(a + "/" + b)) != [] && !Short(a, b) {
      NotShort(a, b);
    }
  }

  lemma ShortDiffers(a: string, mid: string)
    requires Short(a, "") && Idle(Split(mid))
    ensures Cleaned(a + "/" + mid + "/") != Cleaned(a + "/")
  {
    var p, q := a + "/" + mid + "/", a + "/";
    assert p == a + "/" + mid + "/" + "" && q == a + "/" + "";
    SameElements(a, mid, "");
    ShortElements(a);
    LastElement(a, "");
    OneElement("");
    assert Slashed(p) && !Slashed(q);
    assert !Directory(q) && Directory(p);
  }

  /** Leaving out what makes no difference: the result is the same exactly for paths that are not short. */
  lemma Dropped(a: string, mid: string, b: string)
    requires Idle(Split(mid))
    ensures Cleaned(a + "/" + mid + "/" + b) == Cleaned(a + "/" + b) <==> !Short(a, b)
  {
    hide Split, Resolve, Idle, Directory;
    SameElements(a, mid, b);
    SameEnd(a, a + "/" + mid, b);
    if Short(a, b) {
      ShortDiffers(a, mid);
      assert a + "/" + mid + "/" + b == a + "/" + mid + "/" && a + "/" + b == a + "/";
    }
  }

  // ----- The rules -----

  /** Rule 1: several slashes are one. */
  lemma DoubleSlash(a: string, b: string)
    ensures Cleaned(a + "/" + "/" + b) == Cleaned(a + "/" + b) <==> !Short(a, b)
  {
    hide Cleaned, Split, Resolve;
    OneElement("");
    forall st ensures Resolve(st, [""]) == st {
      OneMore(st, "");
    }
    Dropped(a, "", b);
    assert a + "/" + "" + "/" + b == a + "/" + "/" + b;
  }

  lemma OneMore(st: seq<string>, e: string)
    ensures Resolve(st, [e]) == Push(st, e)
  {
    assert [e][1..] == [];
    assert Resolve(st, [e]) == Resolve(Push(st, e), []);
  }

  /** Rule 2: the element `.` goes. */
  lemma CurrentDirectory(a: string, b: string)
    ensures Cleaned(a + "/./" + b) == Cleaned(a + "/" + b) <==> !Short(a, b)
  {
    hide Cleaned, Split, Resolve;
    OneElement(".");
    forall st ensures Resolve(st, ["."]) == st {
      OneMore(st, ".");
    }
    Dropped(a, ".", b);
    assert a + "/" + "." + "/" + b == a + "/./" + b;
  }

  /** Rule 3: the element `..` goes, together with the real element before it. */
  lemma ParentDirectory(a: string, e: string, b: string)
    requires Name(e)
    ensures Cleaned(a + "/" + e + "/../" + b) == Cleaned(a + "/" + b) <==> !Short(a, b)
  {
    hide Cleaned, Split, Resolve;
    OneElement(e);
    OneElement("..");
    SplitConcat(e, "..");
    forall st ensures Resolve(st, [e, ".."]) == st {
      TwoMore(st, e, "..", "");
      assert (st + [e])[..|st|] == st;
    }
    assert Split(e) + Split("..") == [e, ".."];
    Dropped(a, e + "/" + "..", b);
    assert a + "/" + (e + "/" + "..") + "/" + b == a + "/" + e + "/../" + b;
  }

  /** Rule 4: at the root there is nothing above. */
  lemma AboveRoot(b: string)
    ensures Cleaned("/../" + b) == Cleaned("/" + b)
  {
    var p, q := "/../" + b, "/" + b;
    assert p == "" + "/" + ".." + "/" + b && q == "" + "/" + b;
    OneElement("");
    OneElement("..");
    SplitConcat("", "..");
    SplitConcat("" + "/" + "..", b);
    SplitConcat("", b);
    assert Split("") + Split("..") == ["", ".."];
    ResolveConcat([], ["", ".."], Split(b));
    ResolveConcat([], [""], Split(b));
    TwoMore([], "", "..", "");
    OneMore([], "");
    assert Resolve([], Split(p)) == Resolve([], Split(b)) == Resolve([], Split(q));
    SameEnd("", "/..", b);
    assert "/.." + "/" + b == p;
  }
}
