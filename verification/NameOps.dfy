/**
  * The operations that cut and join names. Each is shown to do to the label list what it
  * is named for, and to leave a well-formed name: exact octets, exact offset table.
  */
module NameOps {
  import opened Octets
  import opened Names

  /** A name, an error, or a panic. */
  datatype Outcome = Made(name: Name) | Refused | Panicked

  const WORD: nat := 0x1_0000_0000_0000_0000

  // ----- Slices of label lists -----

  lemma SliceOffset(ls: seq<Label>, a: nat, b: nat, k: nat)
    requires a <= b <= |ls| && k <= b - a
    ensures Offset(ls[a..b], k) == Offset(ls, a + k) - Offset(ls, a)
  {
    hide Body;
    assert ls[a..b][..k] == ls[a..a + k];
    BodyConcat(ls[..a], ls[a..a + k]);
    assert ls[..a] + ls[a..a + k] == ls[..a + k];
  }

  lemma SliceBody(ls: seq<Label>, a: nat, b: nat)
    requires a <= b <= |ls|
    ensures Offset(ls, a) <= Offset(ls, b) <= |Body(ls)|
    ensures Wire(ls)[Offset(ls, a)..Offset(ls, b)] == Body(ls[a..b])
    ensures |Body(ls[a..b])| == Offset(ls, b) - Offset(ls, a)
  {
    hide Body;
    BodySplit(ls, b);
    BodyConcat(ls[..a], ls[a..b]);
    assert ls[..a] + ls[a..b] == ls[..b];
    assert Wire(ls)[..Offset(ls, b)] == Body(ls[..b]);
  }

  /** A name is known by its octets and its table. */
  lemma Known(n: Name, ls: seq<Label>)
    requires FitsName(ls) && n.raw == Wire(ls) && |n.offsets| == |ls| + 1
    requires forall k :: 0 <= k <= |ls| ==> n.offsets[k] == Offset(ls, k)
    ensures Valid(n) && Labels(n) == ls && n == FromLabels(ls)
  {
    hide Body, Wire, Offset;
    assert n.offsets == Offsets(ls);
    assert n == FromLabels(ls);
    LabelsOfEncoding(ls);
  }

  /** Subtracts the first entry of a stretch of the table from all of it. */
  method Rebase(table: bytes, first: byte) returns (offsets: bytes)
    requires forall k :: 0 <= k < |table| ==> first <= table[k]
    ensures |offsets| == |table| && forall k :: 0 <= k < |table| ==> offsets[k] == table[k] - first
  {
    offsets := table;
    for i := 0 to |table|
      invariant |offsets| == |table|
      invariant forall k :: 0 <= k < i ==> offsets[k] == table[k] - first
      invariant forall k :: i <= k < |table| ==> offsets[k] == table[k]
    {
      offsets := offsets[i := offsets[i] - first];
    }
  }

  /** The table of `ls`, with `first` added to every entry. */
  ghost predicate FitsTable(table: bytes, first: byte, ls: seq<Label>) {
    |table| == |ls| + 1 && forall k :: 0 <= k < |table| ==> first <= table[k] && table[k] - first == Offset(ls, k)
  }

  lemma TableSlice(n: Name, a: nat, b: nat)
    requires Valid(n) && a <= b < |n.offsets|
    ensures FitsName(Labels(n)[a..b])
    ensures n.offsets[a] <= n.offsets[b] < |n.raw|
    ensures n.raw[n.offsets[a]..n.offsets[b]] == Body(Labels(n)[a..b])
    ensures FitsTable(n.offsets[a..b + 1], n.offsets[a], Labels(n)[a..b])
  {
    hide Body, Wire;
    var ls := Labels(n);
    SliceBody(ls, a, b);
    var table := n.offsets[a..b + 1];
    forall k | 0 <= k < |table|
      ensures n.offsets[a] <= table[k] && table[k] - n.offsets[a] == Offset(ls[a..b], k)
    {
      assert table[k] == n.offsets[a + k];
      SliceOffset(ls, a, b, k);
      SliceBody(ls, a, a + k);
    }
  }

  function Least(a: nat, b: nat): nat {
    if a < b then a else b
  }

  /** Cuts out the labels of a range; a cut that stops short of the root gets one. */
  method Cut(name: Name, start: nat, stop: nat) returns (part: Name)
    requires Valid(name) && start < stop <= |Labels(name)| + 1
    ensures Valid(part) && Labels(part) == Labels(name)[start..Least(stop, |Labels(name)|)]
  {
    hide Body, Wire, Offset, Valid;
    ghost var ls := Labels(name);
    ExactTable(name);
    if stop == |name.offsets| {
      if start == 0 {
        return name;
      }
      TableSlice(name, start, |ls|);
      OffsetBound(ls, start);
      assert name.offsets[start..] == name.offsets[start..|ls| + 1] && ls[start..|ls|] == ls[start..];
      assert FitsTable(name.offsets[start..], name.offsets[start], ls[start..]);
      var offsets := Rebase(name.offsets[start..], name.offsets[start]);
      part := Name(name.raw[name.offsets[start]..], offsets);
      Known(part, ls[start..]);
    } else {
      TableSlice(name, start, stop);
      var offsets := Rebase(name.offsets[start..stop + 1], name.offsets[start]);
      part := Name(name.raw[name.offsets[start]..name.offsets[stop]] + [0], offsets);
      WireIs(ls[start..stop]);
      Known(part, ls[start..stop]);
    }
  }

  /** Cuts out `labelCount` labels from `startLabel` on; the end of the range wraps around at a word. */
  method Split(name: Name, startLabel: nat, labelCount: nat) returns (r: Outcome)
    requires Valid(name) && startLabel < WORD && labelCount < WORD
    ensures r.Panicked? <==> 0 < labelCount <= |Labels(name)| + 1 && startLabel + labelCount >= WORD
    ensures r.Refused? <==>
      labelCount == 0 || labelCount > |Labels(name)| + 1 || |Labels(name)| + 1 < startLabel + labelCount < WORD
    ensures r.Made? ==> Valid(r.name) && startLabel + labelCount <= |Labels(name)| + 1
    ensures r.Made? ==> Labels(r.name) == Labels(name)[startLabel..Least(startLabel + labelCount, |Labels(name)|)]
  {
    hide Valid, FitsName, FromLabels, Body;
    FewLabels(name);
    var stop := (startLabel + labelCount) % WORD;
    if labelCount == 0 || labelCount > |name.offsets| || stop > |name.offsets| {
      return Refused;
    }
    if startLabel >= |name.offsets| {
      // the sum wrapped around, and the table has no such entry
      return Panicked;
    }
    var part := Cut(name, startLabel, stop);
    r := Made(part);
  }

  lemma FewLabels(name: Name)
    requires Valid(name)
    ensures |name.offsets| == |Labels(name)| + 1 <= MAX_LABELS
  {
    BodyLength(Labels(name));
  }

  lemma WireIs(ls: seq<Label>)
    ensures Wire(ls) == Body(ls) + [0]
  {
  }

  /** Drops the labels of a suffix; the difference of the label counts wraps around below zero. */
  method Subtract(name: Name, suffix: Name) returns (r: Outcome)
    requires Valid(name) && Valid(suffix)
    ensures !r.Panicked? && (r.Refused? <==> |Labels(suffix)| >= |Labels(name)|)
    ensures r.Made? ==> Valid(r.name) && Labels(r.name) == Labels(name)[..|Labels(name)| - |Labels(suffix)|]
  {
    hide Body, Wire, Offset, Valid;
    ExactTable(name);
    ExactTable(suffix);
    r := Split(name, 0, (|name.offsets| - |suffix.offsets|) % WORD);
  }

  method Parent(name: Name, level: nat) returns (r: Outcome)
    requires Valid(name) && level < WORD
    ensures !r.Panicked? && (r.Refused? <==> level > |Labels(name)|)
    ensures r.Made? ==> Valid(r.name) && Labels(r.name) == Labels(name)[level..]
  {
    hide Body, Wire, Offset, Valid;
    ExactTable(name);
    r := Split(name, level, (|name.offsets| - level) % WORD);
  }

  method StripLeft(name: Name, c: nat) returns (r: Outcome)
    requires Valid(name)
    ensures !r.Panicked? && (r.Refused? <==> c > |Labels(name)|)
    ensures r.Made? ==> Valid(r.name) && Labels(r.name) == Labels(name)[c..]
  {
    hide Body, Wire, Offset, Valid;
    ghost var ls := Labels(name);
    if c >= |name.offsets| {
      return Refused;
    }
    if c == 0 {
      return Made(name);
    }
    ExactTable(name);
    TableSlice(name, c, |ls|);
    OffsetBound(ls, c);
    assert name.offsets[c..] == name.offsets[c..|ls| + 1] && ls[c..|ls|] == ls[c..];
    var startPos := name.offsets[c];
    assert FitsTable(name.offsets[c..], startPos, ls[c..]);
    var offsets := Rebase(name.offsets[c..], startPos);
    Known(Name(name.raw[startPos..], offsets), ls[c..]);
    r := Made(Name(name.raw[startPos..], offsets));
  }

  method StripRight(name: Name, c: nat) returns (r: Outcome)
    requires Valid(name)
    ensures !r.Panicked? && (r.Refused? <==> c > |Labels(name)|)
    ensures r.Made? ==> Valid(r.name) && Labels(r.name) == Labels(name)[..|Labels(name)| - c]
  {
    hide Body, Wire, Offset, Valid;
    ghost var ls := Labels(name);
    if c >= |name.offsets| {
      return Refused;
    }
    if c == 0 {
      return Made(name);
    }
    var labelIndex := |name.offsets| - c - 1;
    ExactTable(name);
    TableSlice(name, 0, labelIndex);
    var endPos := name.offsets[labelIndex];
    WireIs(ls[..labelIndex]);
    assert name.offsets[0..labelIndex + 1] == name.offsets[..labelIndex + 1] && ls[0..labelIndex] == ls[..labelIndex];
    var cut := Name(name.raw[..endPos] + [0], name.offsets[..labelIndex + 1]);
    Known(cut, ls[..labelIndex]);
    r := Made(cut);
  }

  // ----- Reversal -----

  function Reversed(ls: seq<Label>): seq<Label> {
    if ls == [] then [] else Reversed(ls[1..]) + [ls[0]]
  }

  lemma {:induction false} ReversedConcat(x: seq<Label>, y: seq<Label>)
    ensures Reversed(x + y) == Reversed(y) + Reversed(x)
  {
    if x == [] {
      assert x + y == y;
    } else {
      assert (x + y)[1..] == x[1..] + y;
      ReversedConcat(x[1..], y);
    }
  }

  lemma {:induction false} ReversedTwice(ls: seq<Label>)
    ensures Reversed(Reversed(ls)) == ls
  {
    if ls != [] {
      ReversedConcat(Reversed(ls[1..]), [ls[0]]);
      ReversedTwice(ls[1..]);
      assert Reversed([ls[0]]) == [ls[0]];
    }
  }

  lemma {:induction false} ReversedSize(ls: seq<Label>)
    ensures |Reversed(ls)| == |ls| && |Body(Reversed(ls))| == |Body(ls)|
  {
    if ls != [] {
      ReversedSize(ls[1..]);
      BodyConcat(Reversed(ls[1..]), [ls[0]]);
      assert Body([ls[0]]) == [|ls[0]| as byte] + ls[0] + [];
    }
  }

  /** `offsets` holds the entries of `ls`, without the one of the root label. */
  ghost predicate Entered(offsets: bytes, ls: seq<Label>) {
    |offsets| == |ls| && forall k :: 0 <= k < |ls| ==> offsets[k] == Offset(ls, k)
  }

  lemma EnterNext(offsets: bytes, ls: seq<Label>, l: Label)
    requires Entered(offsets, ls) && |Body(ls)| < 256
    ensures Entered(offsets + [|Body(ls)| as byte], ls + [l])
    ensures Body(ls + [l]) == Body(ls) + Body([l])
  {
    hide Body;
    var more := ls + [l];
    forall k | 0 <= k < |more|
      ensures Offset(more, k) == if k < |ls| then Offset(ls, k) else |Body(ls)|
    {
      assert more[..k] == ls[..k];
      assert ls[..|ls|] == ls;
    }
    BodyConcat(ls, [l]);
  }

  method Reverse(name: Name) returns (r: Name)
    requires Valid(name)
    ensures Valid(r) && Labels(r) == Reversed(Labels(name))
  {
    hide Body, Wire, Offset, Valid, Reversed;
    ghost var ls := Labels(name);
    ReversedSize(ls);
    if |name.offsets| == 1 {
      Emptied(ls);
      return name;
    }
    var raw, offsets: bytes, labelLen: byte := [], [], 0;
    var i := |name.offsets| - 1;
    ghost var done: seq<Label> := [];
    ReversedEnd(ls);
    while i > 0
      invariant 0 <= i <= |ls| && done == Reversed(ls[i..]) && raw == Body(done) && |raw| == labelLen as int
      invariant Entered(offsets, done)
    {
      i := i - 1;
      TableSlice(name, i, i + 1);
      EnterNext(offsets, done, ls[i]);
      ReversedStep(ls, i);
      ReversedSize(ls[i..]);
      OffsetBound(ls, i);
      BodySplit(ls, i);
      assert ls[i..i + 1] == [ls[i]];
      done := done + [ls[i]];
      var labelStart, labelEnd := name.offsets[i], name.offsets[i + 1];
      raw := raw + name.raw[labelStart..labelEnd];
      offsets := offsets + [labelLen];
      labelLen := labelLen + (labelEnd - labelStart);
    }
    assert ls[0..] == ls;
    WireIs(done);
    TableEnd(offsets, done);
    r := Name(raw + [0], offsets + [labelLen]);
    Known(r, done);
  }

  lemma Emptied(ls: seq<Label>)
    requires ls == []
    ensures Reversed(ls) == ls
  {
  }

  lemma ReversedEnd(ls: seq<Label>)
    ensures Reversed(ls[|ls|..]) == [] && Body([]) == []
  {
  }

  lemma ReversedStep(ls: seq<Label>, i: nat)
    requires i < |ls|
    ensures Reversed(ls[i..]) == Reversed(ls[i + 1..]) + [ls[i]]
  {
    assert ls[i..][1..] == ls[i + 1..];
  }

  lemma TableEnd(offsets: bytes, ls: seq<Label>)
    requires Entered(offsets, ls)
    ensures |ls| == |offsets| && Offset(ls, |ls|) == |Body(ls)|
  {
    assert ls[..|ls|] == ls;
  }

  // ----- Concatenation -----

  /** The labels of names read one after another. */
  ghost function Joined(names: seq<Name>): seq<Label>
    requires forall n :: n in names ==> Valid(n)
  {
    if names == [] then [] else Joined(names[..|names| - 1]) + Labels(names[|names| - 1])
  }

  /** Adds `last` to every entry but the first. */
  method Shifted(table: bytes, last: byte) returns (offsets: bytes)
    requires |table| >= 1 && forall k :: 0 <= k < |table| ==> table[k] as int + last as int < 256
    ensures |offsets| == |table| - 1 && forall k :: 0 <= k < |offsets| ==> offsets[k] == table[k + 1] + last
  {
    offsets := table[1..];
    for i := 0 to |table| - 1
      invariant |offsets| == |table| - 1
      invariant forall k :: 0 <= k < i ==> offsets[k] == table[k + 1] + last
      invariant forall k :: i <= k < |offsets| ==> offsets[k] == table[k + 1]
    {
      offsets := offsets[i := offsets[i] + last];
    }
  }

  /** The table grows by the entries of one more list. */
  lemma TableGrows(offsets: bytes, ls: seq<Label>, more: bytes, x: seq<Label>)
    requires |offsets| == |ls| + 1 && forall k :: 0 <= k <= |ls| ==> offsets[k] == Offset(ls, k)
    requires |more| == |x| && forall k :: 0 <= k < |x| ==> more[k] as int == Offset(x, k + 1) + |Body(ls)|
    ensures |offsets + more| == |ls + x| + 1
    ensures forall k :: 0 <= k <= |ls + x| ==> (offsets + more)[k] == Offset(ls + x, k)
  {
    hide Body;
    forall k | 0 <= k <= |ls + x|
      ensures (offsets + more)[k] == Offset(ls + x, k)
    {
      if k <= |ls| {
        assert (ls + x)[..k] == ls[..k];
      } else {
        assert (ls + x)[..k] == ls + x[..k - |ls|];
        BodyConcat(ls, x[..k - |ls|]);
        assert (offsets + more)[k] == more[k - |ls| - 1];
      }
    }
  }

  lemma JoinedNext(names: seq<Name>, i: nat)
    requires (forall n :: n in names ==> Valid(n)) && i < |names|
    ensures Joined(names[..i + 1]) == Joined(names[..i]) + Labels(names[i])
    ensures |Body(Joined(names[..i + 1]))| == |Body(Joined(names[..i]))| + |names[i].raw| - 1
    ensures Body(Joined(names[..i + 1])) == Body(Joined(names[..i])) + names[i].raw[..|names[i].raw| - 1]
    ensures |Joined(names[..i + 1])| == |Joined(names[..i])| + |names[i].offsets| - 1
  {
    assert names[..i + 1][..i] == names[..i];
    BodyConcat(Joined(names[..i]), Labels(names[i]));
  }

  lemma {:induction false} JoinedGrows(names: seq<Name>, i: nat)
    requires (forall n :: n in names ==> Valid(n)) && i <= |names|
    ensures |Body(Joined(names[..i]))| <= |Body(Joined(names))|
    decreases |names| - i
  {
    if i < |names| {
      JoinedNext(names, i);
      JoinedGrows(names, i + 1);
    } else {
      assert names[..i] == names;
    }
  }

  /**
    * Joins names; what is refused is exactly what does not fit into a name. Without any suffix
    * the slice up to the last one is out of range.
    */
  method Concat(name: Name, suffixes: seq<Name>) returns (r: Outcome)
    requires Valid(name) && forall n :: n in suffixes ==> Valid(n)
    ensures r.Panicked? <==> suffixes == []
    ensures r.Refused? <==> suffixes != [] && !FitsName(Joined([name] + suffixes))
    ensures r.Made? ==> Valid(r.name) && Labels(r.name) == Joined([name] + suffixes)
  {
    hide Body, Wire, Offset, Valid, Joined, FromLabels;
    ghost var all := [name] + suffixes;
    JoinedOne(name, all);
    if |suffixes| == 1 && |suffixes[0].offsets| == 1 {
      JoinedNext(all, 1);
      assert all[..2] == all;
      assert Labels(suffixes[0]) == [] && Labels(name) + [] == Labels(name);
      return Made(name);
    }
    var finalLength, finalLabelCount := |name.raw|, |name.offsets|;
    for i := 0 to |suffixes|
      invariant finalLength == |Body(Joined(all[..i + 1]))| + 1
      invariant finalLabelCount == |Joined(all[..i + 1])| + 1
    {
      JoinedNext(all, i + 1);
      finalLength := finalLength + |suffixes[i].raw| - 1;
      finalLabelCount := finalLabelCount + |suffixes[i].offsets| - 1;
    }
    assert all[..|suffixes| + 1] == all;
    BodyLength(Joined(all));
    if finalLength > MAX_WIRE || finalLabelCount > MAX_LABELS {
      return Refused;
    }
    if |suffixes| == 0 {
      return Panicked;
    }
    var raw := JoinRaw(name, suffixes);
    var offsets := JoinOffsets(name, suffixes);
    Known(Name(raw, offsets), Joined(all));
    r := Made(Name(raw, offsets));
  }

  lemma JoinedOne(name: Name, all: seq<Name>)
    requires (forall n :: n in all ==> Valid(n)) && |all| >= 1 && all[0] == name
    ensures Joined(all[..1]) == Labels(name)
  {
    assert all[..1][..0] == [];
  }

  method JoinRaw(name: Name, suffixes: seq<Name>) returns (raw: bytes)
    requires Valid(name) && (forall n :: n in suffixes ==> Valid(n)) && |suffixes| >= 1
    ensures raw == Wire(Joined([name] + suffixes))
  {
    hide Body, Wire, Offset, Valid, Joined, FromLabels;
    ghost var all := [name] + suffixes;
    JoinedOne(name, all);
    RawParts(name);
    raw := name.raw[..|name.raw| - 1];
    var suffixCount := |suffixes|;
    for i := 0 to suffixCount - 1
      invariant raw == Body(Joined(all[..i + 1]))
    {
      JoinedNext(all, i + 1);
      raw := raw + suffixes[i].raw[..|suffixes[i].raw| - 1];
    }
    var last := suffixes[suffixCount - 1];
    JoinedNext(all, suffixCount);
    assert all[..suffixCount + 1] == all;
    RawParts(last);
    WireIs(Joined(all));
    raw := raw + last.raw;
  }

  lemma RawParts(n: Name)
    requires Valid(n)
    ensures n.raw == n.raw[..|n.raw| - 1] + [0] && n.raw[..|n.raw| - 1] == Body(Labels(n))
  {
  }

  method JoinOffsets(name: Name, suffixes: seq<Name>) returns (offsets: bytes)
    requires Valid(name) && (forall n :: n in suffixes ==> Valid(n)) && FitsName(Joined([name] + suffixes))
    ensures |offsets| == |Joined([name] + suffixes)| + 1
    ensures forall k :: 0 <= k < |offsets| ==> offsets[k] == Offset(Joined([name] + suffixes), k)
  {
    hide Body, Wire, Offset, Valid, Joined, FromLabels;
    ghost var all := [name] + suffixes;
    JoinedOne(name, all);
    OffsetsWithin(name);
    offsets := name.offsets;
    for i := 0 to |suffixes|
      invariant |offsets| == |Joined(all[..i + 1])| + 1
      invariant forall k :: 0 <= k < |offsets| ==> offsets[k] == Offset(Joined(all[..i + 1]), k)
    {
      ghost var done, x := Joined(all[..i + 1]), Labels(suffixes[i]);
      JoinedNext(all, i + 1);
      JoinedGrows(all, i + 2);
      WholeOffset(done);
      OffsetsWithin(suffixes[i]);
      var lastOffset := offsets[|offsets| - 1];
      var more := Shifted(suffixes[i].offsets, lastOffset);
      TableGrows(offsets, done, more, x);
      offsets := offsets + more;
    }
    assert all[..|suffixes| + 1] == all;
  }

  lemma WholeOffset(ls: seq<Label>)
    ensures Offset(ls, |ls|) == |Body(ls)|
  {
    assert ls[..|ls|] == ls;
  }

  lemma OffsetsWithin(n: Name)
    requires Valid(n)
    ensures |n.offsets| == |Labels(n)| + 1
    ensures forall k :: 0 <= k < |n.offsets| ==> n.offsets[k] == Offset(Labels(n), k) <= |n.raw| - 1
  {
    hide Body;
    forall k | 0 <= k < |n.offsets|
      ensures Offset(Labels(n), k) <= |n.raw| - 1
    {
      OffsetBound(Labels(n), k);
    }
  }

  // ----- The operations against each other -----

  /** A name is what its labels are: equal labels mean equal octets and equal tables. */
  lemma LabelsTell(n: Name, m: Name)
    requires Valid(n) && Valid(m)
    ensures n == m <==> Labels(n) == Labels(m)
  {
  }

  lemma JoinedTwo(a: Name, b: Name)
    requires Valid(a) && Valid(b)
    ensures Joined([a] + [b]) == Labels(a) + Labels(b)
  {
    assert [a] + [b] == [a, b];
    JoinedOne(a, [a, b]);
    JoinedNext([a, b], 1);
    assert [a, b][..2] == [a, b];
  }

  lemma JoinedThree(a: Name, b: Name, c: Name)
    requires Valid(a) && Valid(b) && Valid(c)
    ensures Joined([a] + [b, c]) == Labels(a) + Labels(b) + Labels(c)
  {
    hide Valid;
    var all := [a] + [b, c];
    assert all[..2] == [a] + [b] && all[..3] == all && all[2] == c;
    JoinedTwo(a, b);
    JoinedNext(all, 2);
  }

  lemma FitsParts(x: seq<Label>, y: seq<Label>)
    requires FitsName(x + y)
    ensures FitsName(x) && FitsName(y)
  {
    BodyConcat(x, y);
  }

  lemma SameLabelsConcat(x: seq<Label>, y: seq<Label>, z: seq<Label>)
    requires SameLabels(y, z)
    ensures SameLabels(x + y, x + z)
  {
  }

  lemma SameLabelsFit(x: seq<Label>, y: seq<Label>)
    requires SameLabels(x, y)
    ensures FitsName(x) <==> FitsName(y)
  {
    SameLabelsSameWire(x, y);
  }

  /**
    * Subtracting a proper suffix, however it is written, and joining it again restores the
    * name up to case, and restores it exactly when the suffix was written as in the name.
    */
  method SubtractThenConcat(name: Name, suffix: Name) returns (r: Outcome)
    requires Valid(name) && Valid(suffix) && |Labels(suffix)| < |Labels(name)|
    requires SameLabels(Labels(suffix), Labels(name)[|Labels(name)| - |Labels(suffix)|..])
    ensures r.Made? && SameName(r.name, name)
    ensures r.name == name <==> Labels(suffix) == Labels(name)[|Labels(name)| - |Labels(suffix)|..]
  {
    hide Body, Wire, Offset, Valid, Joined, FromLabels, FitsName, SameLabels;
    ghost var ls, k := Labels(name), |Labels(name)| - |Labels(suffix)|;
    var front := Subtract(name, suffix);
    JoinedTwo(front.name, suffix);
    assert ls[..k] + ls[k..] == ls;
    SameLabelsConcat(ls[..k], Labels(suffix), ls[k..]);
    SameLabelsFit(ls[..k] + Labels(suffix), ls);
    r := Concat(front.name, [suffix]);
    LabelsTell(r.name, name);
    assert (ls[..k] + Labels(suffix))[k..] == Labels(suffix);
  }

  /** Joining is associative, also in what it refuses, and joining all at once is the same. */
  method ConcatBothWays(a: Name, b: Name, c: Name) returns (left: Outcome, right: Outcome, all: Outcome)
    requires Valid(a) && Valid(b) && Valid(c)
    ensures left == right == all
    ensures left.Refused? <==> !FitsName(Labels(a) + Labels(b) + Labels(c))
    ensures left.Made? ==> Valid(left.name) && Labels(left.name) == Labels(a) + Labels(b) + Labels(c)
  {
    hide Body, Wire, Offset, Valid, Joined, FromLabels, FitsName;
    ghost var whole := Labels(a) + Labels(b) + Labels(c);
    assert whole == Labels(a) + (Labels(b) + Labels(c));
    if FitsName(whole) {
      FitsParts(Labels(a) + Labels(b), Labels(c));
      FitsParts(Labels(a), Labels(b) + Labels(c));
    }
    JoinedThree(a, b, c);
    all := Concat(a, [b, c]);
    JoinedTwo(a, b);
    left := Concat(a, [b]);
    if left.Made? {
      JoinedTwo(left.name, c);
      left := Concat(left.name, [c]);
    }
    JoinedTwo(b, c);
    right := Concat(b, [c]);
    if right.Made? {
      JoinedTwo(a, right.name);
      right := Concat(a, [right.name]);
    }
    if left.Made? && right.Made? && all.Made? {
      LabelsTell(left.name, right.name);
      LabelsTell(left.name, all.name);
    }
  }

  /** Reversal undoes itself, octets and table. */
  method ReverseTwice(name: Name) returns (r: Name)
    requires Valid(name)
    ensures r == name
  {
    hide Body, Wire, Offset, Valid, Reversed;
    r := Reverse(name);
    r := Reverse(r);
    ReversedTwice(Labels(name));
    LabelsTell(r, name);
  }

  /** Stripping labels on the left is going up to the parent, for every number of labels. */
  method StripLeftOrParent(name: Name, c: nat) returns (stripped: Outcome, parent: Outcome)
    requires Valid(name) && c < WORD
    ensures stripped == parent
  {
    hide Body, Wire, Offset, Valid;
    stripped := StripLeft(name, c);
    parent := Parent(name, c);
    if stripped.Made? && parent.Made? {
      LabelsTell(stripped.name, parent.name);
    }
  }

  /** What is stripped on the left of a name is stripped on the right of the reversed name. */
  method StripReversed(name: Name, c: nat) returns (left: Outcome, right: Outcome)
    requires Valid(name)
    ensures left == right
  {
    hide Body, Wire, Offset, Valid, Reversed;
    ghost var ls := Labels(name);
    left := StripLeft(name, c);
    if left.Made? {
      var r := Reverse(left.name);
      left := Made(r);
    }
    var reversed := Reverse(name);
    ReversedSize(ls);
    right := StripRight(reversed, c);
    if left.Made? && right.Made? {
      ReversedConcat(ls[..c], ls[c..]);
      assert ls[..c] + ls[c..] == ls;
      ReversedSize(ls[c..]);
      LabelsTell(left.name, right.name);
    }
  }

  /** What `Split` cuts off on the left, `Concat` puts back. */
  method SplitThenConcat(name: Name, k: nat) returns (r: Outcome)
    requires Valid(name) && 0 < k < |name.offsets|
    ensures r == Made(name)
  {
    hide Body, Wire, Offset, Valid, Joined, FromLabels, FitsName;
    ghost var ls := Labels(name);
    ExactTable(name);
    var front := Split(name, 0, k);
    var back := Split(name, k, |name.offsets| - k);
    JoinedTwo(front.name, back.name);
    assert ls[..k] + ls[k..] == ls && ls[0..k] == ls[..k] && ls[k..|ls|] == ls[k..];
    r := Concat(front.name, [back.name]);
    LabelsTell(r.name, name);
  }
}
