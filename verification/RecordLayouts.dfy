/** Where the fields of record data stand among its octets, type by type. */
module RecordLayouts {
  import opened Octets
  import opened Names
  import opened NameWire
  import opened Rdata

  lemma FieldsNext(data: bytes, pos: nat, c: Coding, cs: seq<Coding>, ll: nat)
    requires pos <= |data|
    ensures var f, r := FieldFrom(data, pos, c, ll), FieldsFrom(data, pos, [c] + cs, ll);
      if f.Bad? then r.Bad?
      else
        && f.pos <= |data| && var s := FieldsFrom(data, f.pos, cs, f.left);
        r == if s.Bad? then Bad else Got([f.value] + s.value, s.pos, s.left)
  {
    hide FieldFrom;
    FieldAccounts(data, pos, c, ll);
    assert ([c] + cs)[1..] == cs;
  }

  lemma FieldsEnd(data: bytes, pos: nat, ll: nat)
    requires pos <= |data|
    ensures FieldsFrom(data, pos, [], ll) == Got([], pos, ll)
  {
  }

  /** The name that begins at a place, in lower case, and where it ends. */
  ghost predicate NameAt(data: bytes, pos: nat, end: nat, f: Field) {
    && NameEnds(data, pos, end)
    && f.NameField? && Valid(f.name) && Labels(f.name) == FoldLabels(true, DecodeName(data, pos).ls)
  }

  ghost predicate NameEnds(data: bytes, pos: nat, end: nat) {
    pos <= |data| && DecodeName(data, pos).Ok? && DecodeName(data, pos).next == end
  }

  lemma NameReads(data: bytes, pos: nat, c: Coding, ll: nat)
    requires pos <= |data| && (c == CName || c == CNameUncompress)
    ensures var f, d := FieldFrom(data, pos, c, ll), DecodeName(data, pos);
      && (f.Got? <==> d.Ok? && d.next - pos <= ll)
      && (f.Got? ==> NameAt(data, pos, f.pos, f.value) && pos < f.pos && f.left == ll - (f.pos - pos))
  {
    hide Decode;
    if DecodeName(data, pos).Ok? {
      DecodedFits(data, pos);
      var ls := DecodeName(data, pos).ls;
      FoldLabelsSame(true, ls);
      LabelsOfEncoding(FoldLabels(true, ls));
    }
  }

  lemma WordReads16(data: bytes, pos: nat, ll: nat)
    requires pos <= |data|
    ensures FieldFrom(data, pos, CUint16, ll) ==
      if pos + 2 > |data| || ll < 2 then Bad else Got(U16Field(Word16(data[pos], data[pos + 1])), pos + 2, ll - 2)
  {
  }

  /** The announced length, and where the data begins and ends. */
  ghost predicate Announced(data: bytes, pos: nat, n: nat) {
    pos + 2 <= |data| && n == Word16(data[pos], data[pos + 1])
  }

  lemma Under(data: bytes, pos: nat, t: uint16, n: nat)
    requires Announced(data, pos, n) && n > 0 && Schema(t) != []
    ensures var r, s := RdataFrom(data, pos, t), FieldsFrom(data, pos + 2, Schema(t), n);
      if s.Got? && s.left == 0 then r == GotData(s.value, s.pos) else r.BadData?
  {
    hide FieldsFrom, Schema;
  }

  /** An address record, type 1, has four octets, and of type 28 sixteen. */
  lemma AddressLayout(data: bytes, pos: nat, n: nat)
    requires Announced(data, pos, n) && n > 0
    ensures RdataFrom(data, pos, 1) ==
      if n == 4 && pos + 6 <= |data| then GotData([BytesField(data[pos + 2..pos + 6])], pos + 6) else BadData
    ensures RdataFrom(data, pos, 28) ==
      if n == 16 && pos + 18 <= |data| then GotData([BytesField(data[pos + 2..pos + 18])], pos + 18) else BadData
  {
    hide RdataFrom, FieldsFrom;
    Under(data, pos, 1, n);
    Under(data, pos, 28, n);
    assert Schema(1) == [CIPv4] + [] && Schema(28) == [CIPv6] + [];
    FieldsNext(data, pos + 2, CIPv4, [], n);
    FieldsNext(data, pos + 2, CIPv6, [], n);
    if FieldFrom(data, pos + 2, CIPv4, n).Got? {
      FieldsEnd(data, pos + 6, n - 4);
    }
    if FieldFrom(data, pos + 2, CIPv6, n).Got? {
      FieldsEnd(data, pos + 18, n - 16);
    }
  }

  /** NS, CNAME, PTR and DNAME records hold one name that fills them. */
  lemma NameLayout(data: bytes, pos: nat, n: nat, t: uint16)
    requires Announced(data, pos, n) && n > 0 && (t == 2 || t == 5 || t == 12 || t == 39)
    ensures var r := RdataFrom(data, pos, t);
      && (r.GotData? <==> NameEnds(data, pos + 2, pos + 2 + n)) && !r.NoData?
      && (r.GotData? ==> |r.fields| == 1 && r.next == pos + 2 + n && NameAt(data, pos + 2, r.next, r.fields[0]))
  {
    hide RdataFrom, FieldsFrom, FieldFrom, Decode;
    Under(data, pos, t, n);
    assert Schema(t) == [CName] + [];
    FieldsNext(data, pos + 2, CName, [], n);
    NameReads(data, pos + 2, CName, n);
    var f := FieldFrom(data, pos + 2, CName, n);
    if f.Got? {
      FieldsEnd(data, f.pos, f.left);
    }
  }

  /** An MX record, type 15: the preference, then the exchange. */
  lemma ExchangeLayout(data: bytes, pos: nat, n: nat)
    requires Announced(data, pos, n) && n > 0
    ensures var r := RdataFrom(data, pos, 15);
      && (r.GotData? <==> n >= 2 && NameEnds(data, pos + 4, pos + 2 + n))
      && (r.GotData? ==>
            && |r.fields| == 2 && r.next == pos + 2 + n && pos + 4 <= |data|
            && r.fields[0] == U16Field(Word16(data[pos + 2], data[pos + 3]))
               && NameAt(data, pos + 4, r.next, r.fields[1]))
  {
    hide RdataFrom, FieldsFrom, FieldFrom, Decode;
    Under(data, pos, 15, n);
    assert Schema(15) == [CUint16] + [CName] && [CName] == [CName] + [];
    FieldsNext(data, pos + 2, CUint16, [CName], n);
    WordReads16(data, pos + 2, n);
    if n >= 2 && pos + 4 <= |data| {
      FieldsNext(data, pos + 4, CName, [], n - 2);
      NameReads(data, pos + 4, CName, n - 2);
      var f := FieldFrom(data, pos + 4, CName, n - 2);
      if f.Got? {
        FieldsEnd(data, f.pos, f.left);
      }
    }
  }

  // ----- Longer ones -----

  lemma Reads8(data: bytes, pos: nat, ll: nat)
    requires pos <= |data|
    ensures var f := FieldFrom(data, pos, CUint8, ll);
      f.Got? ==> pos + 1 <= |data| && ll >= 1 && f == Got(U8Field(data[pos]), pos + 1, ll - 1)
  {
  }

  lemma Reads32(data: bytes, pos: nat, ll: nat)
    requires pos <= |data|
    ensures var f := FieldFrom(data, pos, CUint32, ll);
      f.Got? ==>
        && pos + 4 <= |data|
        && f == Got(U32Field(Word32(data[pos], data[pos + 1], data[pos + 2], data[pos + 3])), pos + 4, ll - 4)
  {
  }

  /** An SRV record, type 33: priority, weight and port, then the target. */
  lemma ServiceLayout(data: bytes, pos: nat, n: nat)
    requires Announced(data, pos, n) && n > 0 && RdataFrom(data, pos, 33).GotData?
    ensures var fs := RdataFrom(data, pos, 33).fields;
      && |fs| == 4 && pos + 8 <= |data| && fs[0] == U16Field(Word16(data[pos + 2], data[pos + 3]))
      && fs[1] == U16Field(Word16(data[pos + 4], data[pos + 5]))
      && fs[2] == U16Field(Word16(data[pos + 6], data[pos + 7]))
      && NameAt(data, pos + 8, RdataFrom(data, pos, 33).next, fs[3])
  {
    hide RdataFrom, FieldsFrom, FieldFrom, Decode;
    Under(data, pos, 33, n);
    var p, cs := pos + 2, [CNameUncompress] + [];
    assert Schema(33) == [CUint16] + ([CUint16] + ([CUint16] + cs));
    FieldsNext(data, p, CUint16, [CUint16] + ([CUint16] + cs), n);
    WordReads16(data, p, n);
    FieldsNext(data, p + 2, CUint16, [CUint16] + cs, n - 2);
    WordReads16(data, p + 2, n - 2);
    FieldsNext(data, p + 4, CUint16, cs, n - 4);
    WordReads16(data, p + 4, n - 4);
    FieldsNext(data, p + 6, CNameUncompress, [], n - 6);
    NameReads(data, p + 6, CNameUncompress, n - 6);
    var f := FieldFrom(data, p + 6, CNameUncompress, n - 6);
    FieldsEnd(data, f.pos, f.left);
  }

  /** 32-bit words one after the other. */
  predicate WordsAt(data: bytes, pos: nat, fs: seq<Field>) {
    && pos + 4 * |fs| <= |data|
    && forall i :: 0 <= i < |fs| ==>
         var p := pos + 4 * i;
         fs[i] == U32Field(Word32(data[p], data[p + 1], data[p + 2], data[p + 3]))
  }

  lemma FiveWords(data: bytes, pos: nat, n: nat)
    requires pos <= |data| && FieldsFrom(data, pos, [CUint32, CUint32, CUint32, CUint32, CUint32], n).Got?
    ensures var fs := FieldsFrom(data, pos, [CUint32, CUint32, CUint32, CUint32, CUint32], n).value;
      |fs| == 5 && WordsAt(data, pos, fs)
  {
    hide FieldsFrom, FieldFrom;
    var c := [CUint32];
    assert [CUint32, CUint32, CUint32, CUint32, CUint32] == c + (c + (c + (c + (c + []))));
    FieldsNext(data, pos, CUint32, c + (c + (c + (c + []))), n);
    Reads32(data, pos, n);
    FieldsNext(data, pos + 4, CUint32, c + (c + (c + [])), n - 4);
    Reads32(data, pos + 4, n - 4);
    FieldsNext(data, pos + 8, CUint32, c + (c + []), n - 8);
    Reads32(data, pos + 8, n - 8);
    FieldsNext(data, pos + 12, CUint32, c + [], n - 12);
    Reads32(data, pos + 12, n - 12);
    FieldsNext(data, pos + 16, CUint32, [], n - 16);
    Reads32(data, pos + 16, n - 16);
    FieldsEnd(data, pos + 20, n - 20);
  }

  /** An SOA record, type 6: two names, then serial, refresh, retry, expire and minimum. */
  lemma AuthorityLayout(data: bytes, pos: nat, n: nat)
    requires Announced(data, pos, n) && n > 0 && RdataFrom(data, pos, 6).GotData?
    ensures var fs, d := RdataFrom(data, pos, 6).fields, DecodeName(data, pos + 2);
      && |fs| == 7 && d.Ok? && d.next <= |data| && NameAt(data, pos + 2, d.next, fs[0])
      && var e := DecodeName(data, d.next);
      e.Ok? && NameAt(data, d.next, e.next, fs[1]) && WordsAt(data, e.next, fs[2..])
  {
    hide RdataFrom, FieldsFrom, FieldFrom, Decode, WordsAt;
    Under(data, pos, 6, n);
    var cs := [CUint32, CUint32, CUint32, CUint32, CUint32];
    assert Schema(6) == [CName] + ([CName] + cs);
    FieldsNext(data, pos + 2, CName, [CName] + cs, n);
    NameReads(data, pos + 2, CName, n);
    var f := FieldFrom(data, pos + 2, CName, n);
    FieldsNext(data, f.pos, CName, cs, f.left);
    NameReads(data, f.pos, CName, f.left);
    var g := FieldFrom(data, f.pos, CName, f.left);
    FiveWords(data, g.pos, g.left);
    var s := FieldsFrom(data, g.pos, cs, g.left).value;
    var fs := RdataFrom(data, pos, 6).fields;
    assert fs == [f.value] + ([g.value] + s);
    assert fs[2..] == s;
  }

  lemma RestReads(data: bytes, pos: nat, ll: nat)
    requires pos <= |data|
    ensures FieldFrom(data, pos, CBinary, ll) ==
      if pos + ll > |data| then Bad else Got(BytesField(data[pos..pos + ll]), pos + ll, 0)
  {
  }

  /** A DS record, type 43: key tag, algorithm and digest type, then the digest. */
  lemma DigestLayout(data: bytes, pos: nat, n: nat)
    requires Announced(data, pos, n) && n > 0 && RdataFrom(data, pos, 43).GotData?
    ensures n >= 4 && pos + 2 + n <= |data| && RdataFrom(data, pos, 43).fields ==
      [U16Field(Word16(data[pos + 2], data[pos + 3])), U8Field(data[pos + 4]), U8Field(data[pos + 5]),
       BytesField(data[pos + 6..pos + 2 + n])]
  {
    hide RdataFrom, FieldsFrom, FieldFrom;
    Under(data, pos, 43, n);
    var p, cs := pos + 2, [CBinary] + [];
    assert Schema(43) == [CUint16] + ([CUint8] + ([CUint8] + cs));
    FieldsNext(data, p, CUint16, [CUint8] + ([CUint8] + cs), n);
    WordReads16(data, p, n);
    FieldsNext(data, p + 2, CUint8, [CUint8] + cs, n - 2);
    Reads8(data, p + 2, n - 2);
    FieldsNext(data, p + 3, CUint8, cs, n - 3);
    Reads8(data, p + 3, n - 3);
    FieldsNext(data, p + 4, CBinary, [], n - 4);
    RestReads(data, p + 4, n - 4);
    FieldsEnd(data, p + n, 0);
  }

  /** The types that are read at all. */
  lemma TypesRead(t: uint16)
    ensures Schema(t) != [] <==> t in {1, 2, 5, 6, 12, 13, 15, 16, 17, 28, 33, 35, 39, 41, 43, 46, 50, 99, 250}
  {
  }
}
