/** What a tree of levels stores, seen as a map from names in lower case to values. */
module ZoneContents {
  import opened Octets
  import opened Names
  import opened NameOrder
  import opened Trees
  import opened RedBlack
  import opened Zones

  /** A name in lower case. */
  ghost function Folded(ls: seq<Label>): (r: seq<Label>)
    ensures |r| == |ls| && forall i :: 0 <= i < |ls| ==> r[i] == LowerAll(ls[i])
  {
    seq(|ls|, i requires 0 <= i < |ls| => LowerAll(ls[i]))
  }

  lemma SameFoldLower(a: bytes, b: bytes)
    ensures SameFold(a, b) <==> LowerAll(a) == LowerAll(b)
  {
    if LowerAll(a) == LowerAll(b) {
      assert forall i :: 0 <= i < |a| ==> LowerAll(a)[i] == LowerAll(b)[i];
    }
  }

  lemma SameFolded(x: seq<Label>, y: seq<Label>)
    ensures SameLabels(x, y) <==> Folded(x) == Folded(y)
  {
    if SameLabels(x, y) {
      forall i | 0 <= i < |x|
        ensures Folded(x)[i] == Folded(y)[i]
      {
        SameFoldLower(x[i], y[i]);
      }
    }
    if Folded(x) == Folded(y) {
      forall i | 0 <= i < |x|
        ensures SameFold(x[i], y[i])
      {
        assert Folded(x)[i] == Folded(y)[i];
        SameFoldLower(x[i], y[i]);
      }
    }
  }

  datatype Pair = Pair(key: seq<Label>, value: int)

  ghost function Shows(x: Item): seq<Pair> {
    if x.data.Data? then [Pair(Folded(x.full), x.data.value)] else []
  }

  /** The names that hold data, in order. */
  ghost function Contents(xs: seq<Item>): seq<Pair> {
    if xs == [] then [] else Shows(xs[0]) + Contents(xs[1..])
  }

  lemma {:induction false} ContentsConcat(a: seq<Item>, b: seq<Item>)
    ensures Contents(a + b) == Contents(a) + Contents(b)
  {
    if a == [] {
      assert a + b == b;
    } else {
      assert (a + b)[1..] == a[1..] + b;
      ContentsConcat(a[1..], b);
    }
  }

  lemma ContentsOne(x: Item)
    ensures Contents([x]) == Shows(x)
  {
  }

  /** One item between others. */
  lemma ContentsAround(a: seq<Item>, x: Item, b: seq<Item>)
    ensures Contents(a + [x] + b) == Contents(a) + Shows(x) + Contents(b)
  {
    ContentsConcat(a + [x], b);
    ContentsConcat(a, [x]);
    ContentsOne(x);
  }

  /** The same names, up to case, with the same data. */
  ghost predicate Alike(xs: seq<Item>, ys: seq<Item>) {
    |xs| == |ys| && forall i :: 0 <= i < |xs| ==> xs[i].data == ys[i].data && SameLabels(xs[i].full, ys[i].full)
  }

  lemma {:induction false} AlikeContents(xs: seq<Item>, ys: seq<Item>)
    requires Alike(xs, ys)
    ensures Contents(xs) == Contents(ys)
  {
    if xs != [] {
      SameFolded(xs[0].full, ys[0].full);
      AlikeContents(xs[1..], ys[1..]);
    }
  }

  // ----- The map -----

  ghost predicate Distinct(ps: seq<Pair>) {
    forall i, j :: 0 <= i < j < |ps| ==> ps[i].key != ps[j].key
  }

  ghost function AsMap(ps: seq<Pair>): map<seq<Label>, int> {
    if ps == [] then map[] else AsMap(ps[1..])[ps[0].key := ps[0].value]
  }

  lemma {:induction false} AsMapKeys(ps: seq<Pair>, k: seq<Label>)
    ensures k in AsMap(ps) <==> exists i :: 0 <= i < |ps| && ps[i].key == k
  {
    if ps != [] {
      AsMapKeys(ps[1..], k);
      assert forall i :: 0 < i < |ps| ==> ps[i] == ps[1..][i - 1];
    }
  }

  lemma {:induction false} AsMapValue(ps: seq<Pair>, i: nat)
    requires Distinct(ps) && i < |ps|
    ensures ps[i].key in AsMap(ps) && AsMap(ps)[ps[i].key] == ps[i].value
  {
    if i > 0 {
      AsMapValue(ps[1..], i - 1);
      assert ps[0].key != ps[i].key;
    }
  }

  lemma {:induction false} ContentsKeys(xs: seq<Item>, i: nat) returns (j: nat)
    requires i < |Contents(xs)|
    ensures j < |xs| && xs[j].data.Data? && Contents(xs)[i] == Pair(Folded(xs[j].full), xs[j].data.value)
  {
    var n := |Shows(xs[0])|;
    if i < n {
      j := 0;
    } else {
      var j' := ContentsKeys(xs[1..], i - n);
      j := j' + 1;
    }
  }

  lemma {:induction false} ContentsHolds(xs: seq<Item>, j: nat) returns (i: nat)
    requires j < |xs| && xs[j].data.Data?
    ensures i < |Contents(xs)| && Contents(xs)[i] == Pair(Folded(xs[j].full), xs[j].data.value)
  {
    if j == 0 {
      i := 0;
    } else {
      var i' := ContentsHolds(xs[1..], j - 1);
      i := |Shows(xs[0])| + i';
    }
  }

  lemma LessDiffers(x: seq<Label>, y: seq<Label>)
    requires NameLess(x, y)
    ensures Folded(x) != Folded(y)
  {
    SameFolded(x, y);
    NotBoth(x, y);
  }

  lemma {:induction false} ContentsDistinct(xs: seq<Item>)
    requires SortedItems(xs)
    ensures Distinct(Contents(xs))
  {
    hide NameLess;
    if xs != [] {
      var ps, rest := Contents(xs), Contents(xs[1..]);
      ContentsDistinct(xs[1..]);
      if xs[0].data.Data? {
        forall j | 0 <= j < |rest|
          ensures rest[j].key != ps[0].key
        {
          var m := ContentsKeys(xs[1..], j);
          LessDiffers(xs[0].full, xs[m + 1].full);
        }
      }
    }
  }

  lemma {:induction false} AsMapConcat(a: seq<Pair>, b: seq<Pair>)
    ensures AsMap(a + b) == AsMap(b) + AsMap(a)
  {
    if a == [] {
      assert a + b == b;
    } else {
      assert (a + b)[1..] == a[1..] + b;
      AsMapConcat(a[1..], b);
    }
  }

  lemma AsMapOne(p: Pair)
    ensures AsMap([p]) == map[p.key := p.value]
  {
    assert [p][1..] == [];
  }

  lemma KeyApart(a: seq<Pair>, p: Pair, b: seq<Pair>)
    requires Distinct(a + [p] + b)
    ensures p.key !in AsMap(a) && p.key !in AsMap(b)
  {
    var x := a + [p] + b;
    assert x[|a|] == p;
    assert forall i :: 0 <= i < |a| ==> x[i] == a[i];
    forall i | 0 <= i < |b|
      ensures b[i].key != p.key
    {
      assert x[|a| + 1 + i] == b[i];
    }
    AsMapKeys(a, p.key);
    AsMapKeys(b, p.key);
  }

  lemma MapPut(a: map<seq<Label>, int>, mid: map<seq<Label>, int>, b: map<seq<Label>, int>, k: seq<Label>, v: int)
    requires k !in a && mid.Keys <= {k}
    ensures b + map[k := v] + a == (b + mid + a)[k := v]
  {
  }

  lemma MapAssoc(a: seq<Pair>, mid: seq<Pair>, b: seq<Pair>)
    ensures AsMap(a + mid + b) == AsMap(b) + AsMap(mid) + AsMap(a)
  {
    hide AsMap;
    AsMapConcat(a + mid, b);
    AsMapConcat(a, mid);
    assert AsMap(b) + (AsMap(mid) + AsMap(a)) == AsMap(b) + AsMap(mid) + AsMap(a);
  }

  /** A value put at the place of a key. */
  lemma PutPair(a: seq<Pair>, mid: seq<Pair>, b: seq<Pair>, p: Pair)
    requires Distinct(a + [p] + b) && (mid == [] || (|mid| == 1 && mid[0].key == p.key))
    ensures AsMap(a + [p] + b) == AsMap(a + mid + b)[p.key := p.value]
  {
    KeyApart(a, p, b);
    AsMapOne(p);
    if mid != [] {
      assert mid == [mid[0]];
      AsMapOne(mid[0]);
    }
    hide AsMap, Distinct;
    MapAssoc(a, [p], b);
    MapAssoc(a, mid, b);
    MapPut(AsMap(a), AsMap(mid), AsMap(b), p.key, p.value);
  }

  /** A key taken out. */
  lemma DropPair(a: seq<Pair>, b: seq<Pair>, p: Pair)
    requires Distinct(a + [p] + b)
    ensures AsMap(a + b) == AsMap(a + [p] + b) - {p.key}
  {
    KeyApart(a, p, b);
    AsMapOne(p);
    hide AsMap, Distinct;
    MapAssoc(a, [p], b);
    AsMapConcat(a, b);
  }
}
