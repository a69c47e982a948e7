/**
  * The message renderer: an output buffer that grows, a hash table of suffix
  * positions and a scratch array of hashes, all updated in place.
  */
module Render {
  import opened Octets
  import opened Names
  import opened NameWire
  import C = Compression

  const NO_OFFSET: uint16 := 65535

  class OutputBuffer {
    var data: bytes

    constructor ()
      ensures data == []
    {
      data := [];
    }

    /** Out of range it yields zero. */
    function At(pos: nat): byte
      reads this
    {
      if pos < |data| then data[pos] else 0
    }

    method Skip(length: nat)
      modifies this
      ensures data == old(data) + seq(length, i => 0)
    {
      for i := 0 to length
        invariant data == old(data) + seq(i, k => 0)
      {
        data := data + [0];
      }
    }

    method WriteData(bs: bytes)
      modifies this
      ensures data == old(data) + bs
    {
      data := data + bs;
    }

    method WriteUint16At(v: uint16, pos: nat) returns (ok: bool)
      modifies this
      ensures ok == (pos + 2 <= |old(data)|)
      ensures data == if ok then old(data)[pos := U16(v)[0]][pos + 1 := U16(v)[1]] else old(data)
    {
      if pos + 2 > |data| {
        return false;
      }
      data := data[pos := v / 0x100];
      data := data[pos + 1 := v % 0x100];
      ok := true;
    }
  }

  /** What the table stores of a suffix: its hash, its position and its encoded length. */
  datatype OffsetItem = OffsetItem(hash: uint32, pos: uint16, l: uint16)

  ghost predicate Stores(o: OffsetItem, item: C.Item) {
    o.hash == item.hash && o.pos == item.pos && o.l == |Wire(item.ls)|
  }

  ghost predicate BucketStores(os: seq<OffsetItem>, items: seq<C.Item>) {
    |os| == |items| && forall i :: 0 <= i < |os| ==> Stores(os[i], items[i])
  }

  ghost predicate TableStores(table: seq<seq<OffsetItem>>, items: seq<seq<C.Item>>) {
    && |table| == |items| == C.BUCKETS
    && forall b :: 0 <= b < C.BUCKETS ==> BucketStores(table[b], items[b])
  }

  /** Follows pointers from `pos` to a length octet, and steps over it. */
  method NextPos(buf: OutputBuffer, pos: uint16, ghost mask: seq<bool>, ghost limit: nat, ghost ls: seq<Label>)
    returns (len: byte, next: uint16, ghost limit': nat)
    requires |mask| == |buf.data| && C.At(buf.data, mask, pos, limit, ls) && pos <= C.MAX_COMPRESS_POINTER + MAX_WIRE
    ensures 1 <= next <= (if pos <= C.MAX_COMPRESS_POINTER then C.MAX_COMPRESS_POINTER else pos) + 1
    ensures next - 1 < |buf.data| && buf.data[next - 1] == len <= MAX_LABEL_LEN
    ensures C.At(buf.data, mask, next - 1, limit', ls)
  {
    var b, p: uint16 := buf.At(pos), pos;
    limit' := limit;
    while b >= 0xc0
      invariant p < |buf.data| && b == buf.data[p] && C.At(buf.data, mask, p, limit', ls)
      invariant p <= if pos <= C.MAX_COMPRESS_POINTER then C.MAX_COMPRESS_POINTER else pos
      decreases if b >= 0xc0 then 1 else 0
    {
      var nb := buf.At(p + 1);
      p := (b as int - 0xc0) * 0x100 + nb;
      b := buf.At(p);
      limit' := p;
    }
    len, next := b, p + 1;
  }

  /** Compares a stored suffix with the name under the cursor, which moves on. */
  method Compare(buf: OutputBuffer, o: OffsetItem, nameBuf: InputBuffer, hash: uint32, ghost mask: seq<bool>,
                 ghost item: C.Item)
    returns (found: bool)
    requires |mask| == |buf.data| && C.ItemOk(buf.data, mask, item) && Stores(o, item)
    requires nameBuf.Valid() && |nameBuf.data| <= MAX_WIRE
    modifies nameBuf`pos
    ensures nameBuf.Valid()
    ensures (found, nameBuf.pos) == C.Compare(item, nameBuf.data, hash, old(nameBuf.pos))
  {
    hide Wire, Body, C.At, C.MatchFrom, FitsName, C.ItemOk;
    ItemSize(buf.data, mask, item);
    if o.hash != hash || o.l != |nameBuf.data| {
      return false;
    }
    var itemPos: uint16 := o.pos;
    ghost var w, name, start := Wire(item.ls), nameBuf.data, nameBuf.pos;
    ghost var rest, i: nat, limit: nat := item.ls, 0, item.pos;
    while true
      invariant nameBuf.Valid() && nameBuf.data == name
      invariant i + |Wire(rest)| == |w| && w[i..] == Wire(rest)
      invariant itemPos <= C.MAX_COMPRESS_POINTER + i && C.At(buf.data, mask, itemPos, limit, rest)
      invariant C.MatchFrom(w, 0, name, start) == C.MatchFrom(w, i, name, nameBuf.pos)
      decreases |rest|
    {
      var itemLabelLen;
      itemLabelLen, itemPos, limit := NextPos(buf, itemPos, mask, limit, rest);
      LabelUnder(buf.data, mask, itemPos - 1, limit, rest, w, i);
      C.MatchStep(w, i, name, nameBuf.pos);
      var _, nameLabelLen := nameBuf.ReadUint8();
      if itemLabelLen != nameLabelLen {
        return false;
      } else if nameLabelLen == 0 {
        return true;
      }
      var same := CompareLabel(buf, itemPos, nameLabelLen, nameBuf, w, i + 1);
      if !same {
        return false;
      }
      itemPos := itemPos + itemLabelLen;
      rest, i := rest[1..], i + 1 + itemLabelLen;
    }
  }

  /** The inner loop of the comparison, over the octets of one label. */
  method CompareLabel(buf: OutputBuffer, itemPos: uint16, labelLen: byte, nameBuf: InputBuffer, ghost w: bytes,
                      ghost i: nat)
    returns (same: bool)
    requires itemPos + labelLen <= |buf.data| && i + labelLen < |w|
    requires buf.data[itemPos..itemPos + labelLen] == w[i..i + labelLen]
    requires nameBuf.Valid()
    modifies nameBuf`pos
    ensures nameBuf.Valid()
    ensures C.MatchFrom(w, i, nameBuf.data, old(nameBuf.pos))
            == if same then C.MatchFrom(w, i + labelLen, nameBuf.data, nameBuf.pos) else (false, nameBuf.pos)
  {
    hide C.MatchFrom;
    ghost var name := nameBuf.data;
    for m := 0 to labelLen
      invariant nameBuf.Valid() && nameBuf.data == name
      invariant C.MatchFrom(w, i, name, old(nameBuf.pos)) == C.MatchFrom(w, i + m, name, nameBuf.pos)
    {
      assert w[i + m] == w[i..i + labelLen][m] == buf.data[itemPos + m];
      C.MatchStep(w, i + m, name, nameBuf.pos);
      var ch1 := buf.At(itemPos + m);
      var _, ch2 := nameBuf.ReadUint8();
      if Lower(ch1) != Lower(ch2) {
        return false;
      }
    }
    same := true;
  }

  lemma ItemSize(data: bytes, mask: seq<bool>, item: C.Item)
    requires |mask| == |data| && C.ItemOk(data, mask, item)
    ensures |Wire(item.ls)| <= MAX_WIRE && item.pos <= C.MAX_COMPRESS_POINTER
    ensures C.At(data, mask, item.pos, item.pos, item.ls)
  {
  }

  /** The octets under a label that is not a pointer, and the same octets in the encoding `w`. */
  lemma LabelUnder(data: bytes, mask: seq<bool>, pos: nat, limit: nat, ls: seq<Label>, w: bytes, i: nat)
    requires |mask| == |data| && C.At(data, mask, pos, limit, ls) && data[pos] < 0xc0
    requires i + |Wire(ls)| == |w| && w[i..] == Wire(ls)
    ensures data[pos] == w[i] && (data[pos] == 0 <==> ls == []) && (ls == [] ==> i + 1 == |w|)
    ensures ls != [] ==>
              var n := |ls[0]|;
              && data[pos] == n && pos + 1 + n <= |data| && i + 1 + n < |w|
              && data[pos + 1..pos + 1 + n] == w[i + 1..i + 1 + n]
              && |Wire(ls[1..])| == |w| - (i + 1 + n) && w[i + 1 + n..] == Wire(ls[1..])
              && C.At(data, mask, pos + 1 + n, limit, ls[1..])
  {
    assert w[i] == w[i..][0];
    if ls != [] {
      WireHead(ls);
      var n := |ls[0]|;
      assert w[i..][1..1 + n] == w[i + 1..i + 1 + n];
      assert w[i..][1 + n..] == w[i + 1 + n..];
    }
  }

  class MsgRender {
    const buf: OutputBuffer
    const seqHashs: array<uint32>
    var table: seq<seq<OffsetItem>>

    /** The state of the specification that this renderer is in. */
    ghost var st: C.State

    ghost predicate Valid()
      reads this, buf
    {
      && seqHashs.Length == MAX_LABELS
      && C.Inv(st) && buf.data == st.buf && TableStores(table, st.table)
    }

    constructor ()
      ensures Valid() && st == C.Fresh() && fresh(buf) && fresh(seqHashs)
    {
      buf := new OutputBuffer();
      seqHashs := new uint32[MAX_LABELS];
      table := seq(C.BUCKETS, i => []);
      st := C.Fresh();
    }

    method Clear()
      requires Valid()
      modifies this, buf
      ensures Valid() && st == C.Fresh()
    {
      buf.data := [];
      for i := 0 to C.BUCKETS
        invariant |table| == C.BUCKETS && buf.data == []
        invariant forall b :: 0 <= b < i ==> table[b] == []
      {
        table := table[i := []];
      }
      st := C.Fresh();
    }

    method FindOffset(nameBuf: InputBuffer, hash: uint32) returns (pos: uint16)
      requires Valid() && nameBuf.Valid() && |nameBuf.data| <= MAX_WIRE
      modifies nameBuf`pos
      ensures match C.FindIn(st.table[hash % C.BUCKETS], nameBuf.data, hash, old(nameBuf.pos))
              case None => pos == NO_OFFSET
              case Some(item) => pos == item.pos <= C.MAX_COMPRESS_POINTER
    {
      hide C.ItemOk, Stores;
      var items := table[hash % C.BUCKETS];
      ghost var specs, name := st.table[hash % C.BUCKETS], nameBuf.data;
      assert BucketStores(items, specs);
      var i := |items|;
      assert specs[..i] == specs;
      while i > 0
        invariant 0 <= i <= |items| && nameBuf.Valid() && nameBuf.data == name
        invariant C.FindIn(specs, name, hash, old(nameBuf.pos)) == C.FindIn(specs[..i], name, hash, nameBuf.pos)
      {
        i := i - 1;
        assert specs[..i + 1][..i] == specs[..i];
        assert C.ItemOk(buf.data, st.mask, specs[i]);
        ItemSize(buf.data, st.mask, specs[i]);
        StoredPosition(items[i], specs[i]);
        var found := Compare(buf, items[i], nameBuf, hash, st.mask, specs[i]);
        if found {
          return items[i].pos;
        }
      }
      pos := NO_OFFSET;
    }

    method AddOffset(hash: uint32, offset: uint16, length: uint16, ghost item: C.Item, ghost specs: seq<seq<C.Item>>)
      requires TableStores(table, specs) && Stores(OffsetItem(hash, offset, length), item)
      modifies this`table
      ensures TableStores(table, C.AddItem(specs, item))
    {
      var index := hash % C.BUCKETS;
      table := table[index := table[index] + [OffsetItem(hash, offset, length)]];
    }

    /** Looks the suffixes of `name` up, longest first, and notes their hashes. */
    method FindSuffix(name: Name, compress: bool) returns (nlabelsUncomp: nat, ptrOffset: uint16)
      requires Valid() && Names.Valid(name)
      modifies seqHashs
      ensures var (k, h) := C.Split(st, Labels(name), compress);
              && (if h.HitAt? then nlabelsUncomp == k && ptrOffset == h.item.pos <= C.MAX_COMPRESS_POINTER
                  else nlabelsUncomp == |name.offsets| && ptrOffset == NO_OFFSET)
              && k <= MAX_LABELS
              && forall j :: 0 <= j < k ==> seqHashs[j] == Hash(Wire(Labels(name)[j..]))
    {
      hide Body, Wire, Hash, C.TableOk, C.FindIn, BucketStores, FitsName;
      assert |st.table| == C.BUCKETS;
      ghost var ls := Labels(name);
      ExactTable(name);
      var parentBuf := new InputBuffer([]);
      ptrOffset, nlabelsUncomp := NO_OFFSET, 0;
      while nlabelsUncomp < |name.offsets|
        invariant nlabelsUncomp <= |ls| && ptrOffset == NO_OFFSET && fresh(parentBuf)
        invariant forall j :: 0 <= j < nlabelsUncomp ==> seqHashs[j] == Hash(Wire(ls[j..]))
        invariant compress ==> C.Search(st.table, ls, 0) == C.Search(st.table, ls, nlabelsUncomp)
      {
        if nlabelsUncomp + 1 == |name.offsets| {
          nlabelsUncomp := nlabelsUncomp + 1;
          break;
        }
        SuffixRaw(name, nlabelsUncomp);
        var suffix := name.raw[name.offsets[nlabelsUncomp]..];
        seqHashs[nlabelsUncomp] := HashRaw(suffix, false);
        if compress {
          parentBuf.SetData(suffix);
          ptrOffset := FindOffset(parentBuf, seqHashs[nlabelsUncomp]);
          if ptrOffset != NO_OFFSET {
            break;
          }
        }
        nlabelsUncomp := nlabelsUncomp + 1;
      }
    }

    /** Enters the suffixes just spelled out at `start`, up to one too far away. */
    method RememberSuffixes(name: Name, nlabelsUncomp: nat, start: nat, ghost k: nat, ghost h: C.Hit)
      requires seqHashs.Length == MAX_LABELS && TableStores(table, st.table) && Names.Valid(name)
      requires k <= |Labels(name)| && k <= MAX_LABELS && nlabelsUncomp <= |name.offsets|
      requires nlabelsUncomp == k || (nlabelsUncomp == k + 1 == |name.offsets| && h.Miss?)
      requires start == |st.buf| && buf.data == st.buf + Body(Labels(name)[..k]) + C.Ending(h)
      requires |Body(C.Tail(h))| == |Body(Labels(name)[k..])|
      requires forall j :: 0 <= j < k ==> seqHashs[j] == Hash(Wire(Labels(name)[j..]))
      modifies this`table
      ensures TableStores(table, C.AddSuffixes(st.table, Labels(name), 0, k, start, C.Tail(h)))
    {
      hide Body, Wire, Hash, FitsName, C.AddItem, Stores, TableStores, C.Tail, C.Ending;
      ghost var ls, specs, tail := Labels(name), st.table, C.Tail(h);
      assert |st.table| == C.BUCKETS by { TableSize(table, st.table); }
      C.StartOffset(ls);
      var offset, nameLen := start, |name.raw|;
      for i := 0 to nlabelsUncomp
        invariant i <= k && |specs| == C.BUCKETS && TableStores(table, specs)
        invariant offset == start + Offset(ls, i) && nameLen == |name.raw| - Offset(ls, i)
        invariant C.AddSuffixes(st.table, ls, 0, k, start, tail) == C.AddSuffixes(specs, ls, i, k, start, tail)
      {
        var labelLen := buf.At(offset);
        if i == k {
          EndOctet(st.buf, ls, h);
        } else {
          C.SpelledOut(st.buf, ls, k, C.Ending(h), i);
        }
        if labelLen == 0 {
          break;
        }
        if offset > C.MAX_COMPRESS_POINTER {
          break;
        }
        ghost var item := C.Item(Hash(Wire(ls[i..])), offset, ls[i..k] + tail);
        ItemLength(name, i, k, tail, item);
        AddOffset(seqHashs[i], offset, nameLen, item, specs);
        specs := C.AddItem(specs, item);
        offset := offset + labelLen + 1;
        nameLen := nameLen - (labelLen + 1);
      }
    }

    /**
      * Writes `name`, replacing its longest known suffix by a pointer when asked to, and
      * remembers the position of every suffix it spelled out.
      */
    method WriteName(name: Name, compress: bool)
      requires Valid() && Names.Valid(name)
      modifies this`st, this`table, buf, seqHashs
      ensures Valid() && st == C.WriteName(old(st), Labels(name), compress)
    {
      hide Body, Wire, Hash, C.TableOk, C.FindIn, C.AddSuffixes, C.Search, TableStores, FitsName, C.SafeTable, C.At,
        C.Stop, C.Keeps, SameLabels;
      ghost var ls := Labels(name);
      TableSize(table, st.table);
      var nlabelsUncomp, ptrOffset := FindSuffix(name, compress);
      ghost var (k, h) := C.Split(st, ls, compress);

      var offset := |buf.data|;
      RawPrefix(name, k);
      if !compress || nlabelsUncomp == |name.offsets| {
        buf.WriteData(name.raw);
      } else if nlabelsUncomp > 0 {
        buf.WriteData(name.raw[..name.offsets[nlabelsUncomp]]);
      }
      if compress && ptrOffset != NO_OFFSET {
        buf.WriteData(U16(0xc000 + ptrOffset % 0x4000));
      }
      C.WriteNameKeeps(st, ls, compress, C.NoNuls);
      C.SplitSize(st, ls, compress);
      RememberSuffixes(name, nlabelsUncomp, offset, k, h);
      st := C.WriteName(st, ls, compress);
    }

    /** Raw data, and with it the big-endian integers. */
    method WriteData(data: bytes)
      requires Valid()
      modifies this`st, buf
      ensures Valid() && st == C.WriteData(old(st), data)
    {
      C.WriteDataKeeps(st, data);
      buf.WriteData(data);
      st := C.WriteData(st, data);
    }

    method WriteUint8(v: byte)
      requires Valid()
      modifies this`st, buf
      ensures Valid() && st == C.WriteData(old(st), [v])
    {
      WriteData([v]);
    }

    method WriteUint16(v: uint16)
      requires Valid()
      modifies this`st, buf
      ensures Valid() && st == C.WriteData(old(st), U16(v))
    {
      WriteData([v / 0x100, v % 0x100]);
    }

    method WriteUint32(v: uint32)
      requires Valid()
      modifies this`st, buf
      ensures Valid() && st == C.WriteData(old(st), U32(v))
    {
      WriteData(U32(v));
    }

    method Skip(length: nat)
      requires Valid()
      modifies this`st, buf
      ensures Valid() && st == C.WriteData(old(st), seq(length, i => 0))
    {
      C.WriteDataKeeps(st, seq(length, i => 0));
      buf.Skip(length);
      st := C.WriteData(st, seq(length, i => 0));
    }

    /** Back-patching is for octets that belong to no name. */
    method WriteUint16At(v: uint16, pos: nat) returns (ok: bool)
      requires Valid() && (pos + 2 <= |st.buf| ==> !st.mask[pos] && !st.mask[pos + 1])
      modifies this`st, buf
      ensures Valid() && st == C.Patch16(old(st), v, pos) && ok == (pos + 2 <= |old(st).buf|)
    {
      C.PatchKeeps(st, v, pos);
      ok := buf.WriteUint16At(v, pos);
      st := C.Patch16(st, v, pos);
    }
  }

  lemma SuffixRaw(name: Name, k: nat)
    requires Names.Valid(name) && k < |name.offsets|
    ensures name.offsets[k] <= |name.raw| <= MAX_WIRE
    ensures name.raw[name.offsets[k]..] == Wire(Labels(name)[k..])
  {
    OffsetBound(Labels(name), k);
  }

  lemma RawPrefix(name: Name, k: nat)
    requires Names.Valid(name) && k < |name.offsets|
    ensures name.offsets[k] <= |name.raw| && name.raw[..name.offsets[k]] == Body(Labels(name)[..k])
    ensures k == 0 ==> Body(Labels(name)[..k]) == []
    ensures k + 1 == |name.offsets| ==> name.raw == Body(Labels(name)[..k]) + [0]
  {
    var ls := Labels(name);
    WireSplit(ls, k);
    assert ls[..|ls|] == ls;
  }

  lemma TableSize(table: seq<seq<OffsetItem>>, specs: seq<seq<C.Item>>)
    requires TableStores(table, specs)
    ensures |specs| == C.BUCKETS
  {
  }

  lemma EndOctet(start: bytes, ls: seq<Label>, h: C.Hit)
    requires h.Miss?
    ensures var data := start + Body(ls[..|ls|]) + C.Ending(h);
            |start| + Offset(ls, |ls|) < |data| && data[|start| + Offset(ls, |ls|)] == 0
  {
  }

  lemma ItemLength(name: Name, i: nat, k: nat, tail: seq<Label>, item: C.Item)
    requires Names.Valid(name) && i <= k <= |Labels(name)| && |Body(tail)| == |Body(Labels(name)[k..])|
    requires item.ls == Labels(name)[i..k] + tail && item.pos <= C.MAX_COMPRESS_POINTER
    ensures Offset(Labels(name), i) < |name.raw| <= MAX_WIRE
    ensures Stores(OffsetItem(item.hash, item.pos, |name.raw| - Offset(Labels(name), i)), item)
  {
    var ls := Labels(name);
    C.Rejoined(ls, k, tail, i);
    BodySplit(ls, i);
  }

  lemma StoredPosition(o: OffsetItem, item: C.Item)
    requires Stores(o, item)
    ensures o.pos == item.pos
  {
  }
}
