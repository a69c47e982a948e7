/**
  * Whole messages: what rendering one writes, what parsing reads, and that parsing a
  * rendered message gives it back up to the case of names.
  */
module Messages {
  import opened Octets
  import opened Options
  import opened Names
  import opened NameWire
  import C = Compression
  import R = Rdata

  datatype RRset = RRset(name: Name, typ: uint16, class_: uint16, ttl: uint32, rdatas: seq<seq<R.Field>>)

  datatype Question = Question(name: Name, typ: uint16, class_: uint16)

  datatype Header = Header(id: uint16, flag: uint16, opcode: byte, rcode: byte,
                           qd: uint16, an: uint16, ns: uint16, ar: uint16)

  /** `edns` and `tsig` are the records set aside at the end of the additional section. */
  datatype Message = Message(header: Header, question: Option<Question>, sections: seq<seq<RRset>>,
                             edns: Option<RRset>, tsig: Option<RRset>)

  const SECTIONS := 3
  const ADDITIONAL := 2

  // ----- The header -----

  /** The bits of a word under the flag mask 0x87b0. */
  function FlagBits(w: uint16): uint16 {
    w / 0x8000 * 0x8000 + w / 0x80 % 0x10 * 0x80 + w / 0x10 % 4 * 0x10
  }

  /** The flags are what is left of the word without the opcode, the reserved bit and the response code. */
  lemma FlagsAre(w: uint16)
    ensures FlagBits(w) + w / 0x800 % 0x10 * 0x800 + w / 0x40 % 2 * 0x40 + w % 0x10 == w
  {
    var a, b, c, d, e := w / 0x10, w / 0x40, w / 0x80, w / 0x800, w / 0x8000;
    assert b == a / 4 && c == b / 2;
    assert d == c / 0x10 && e == d / 0x10;
    assert w == a * 0x10 + w % 0x10 && a == b * 4 + a % 4 && b == c * 2 + b % 2;
    assert c == d * 0x10 + c % 0x10 && d == e * 0x10 + d % 0x10;
  }

  /** The flag word on the wire: disjoint bits of flags, opcode and response code. */
  function FlagWord(h: Header): uint16 {
    FlagBits(h.flag) + h.opcode % 0x10 * 0x800 + h.rcode % 0x10
  }

  function HeaderOut(h: Header): bytes {
    U16(h.id) + U16(FlagWord(h)) + U16(h.qd) + U16(h.an) + U16(h.ns) + U16(h.ar)
  }

  lemma Unpack(a: nat, b: nat, d: nat)
    requires b < d && (d == 4 || d == 0x10 || d == 0x80 || d == 0x800 || d == 0x8000)
    ensures (a * d + b) / d == a && (a * d + b) % d == b
  {
    if d == 4 {
      assert (a * 4 + b) / 4 == a;
    } else if d == 0x10 {
      assert (a * 0x10 + b) / 0x10 == a;
    } else if d == 0x80 {
      assert (a * 0x80 + b) / 0x80 == a;
    } else if d == 0x800 {
      assert (a * 0x800 + b) / 0x800 == a;
    } else {
      assert (a * 0x8000 + b) / 0x8000 == a;
    }
  }

  lemma FlagWordReads(f: uint16, op: byte, rc: byte)
    ensures var w := FlagBits(f) + op % 0x10 * 0x800 + rc % 0x10;
            0 <= w < 0x1_0000 && FlagBits(w) == FlagBits(f) && w / 0x800 % 0x10 == op % 0x10 && w % 0x10 == rc % 0x10
  {
    Packed(f / 0x8000, op % 0x10, f / 0x80 % 0x10, f / 0x10 % 4, rc % 0x10);
  }

  lemma Packed(q: nat, o: nat, m: nat, l: nat, r: nat)
    requires q < 2 && o < 0x10 && m < 0x10 && l < 4 && r < 0x10
    ensures var w := q * 0x8000 + o * 0x800 + m * 0x80 + l * 0x10 + r;
            && w < 0x1_0000 && w / 0x8000 == q && w / 0x800 % 0x10 == o && w / 0x80 % 0x10 == m
            && w / 0x10 % 4 == l && w % 0x10 == r
  {
    Unpack(q * 0x800 + o * 0x80 + m * 8 + l, r, 0x10);
    Unpack(q * 0x200 + o * 0x20 + m * 2, l, 4);
    Unpack(q * 0x100 + o * 0x10 + m, l * 0x10 + r, 0x80);
    Unpack(q * 0x10 + o, m, 0x10);
    Unpack(q * 0x10 + o, m * 0x80 + l * 0x10 + r, 0x800);
    Unpack(q, o, 0x10);
    Unpack(q, o * 0x800 + m * 0x80 + l * 0x10 + r, 0x8000);
  }

  /** Reading past the end yields zero and does not move. */
  function Read16(data: bytes, pos: nat): (uint16, nat) {
    if pos + 2 <= |data| then (Word16(data[pos], data[pos + 1]), pos + 2) else (0, pos)
  }

  function HeaderFrom(data: bytes, pos: nat): Option<(Header, nat)> {
    if |data| < 12 then None
    else
      var (id, p1) := Read16(data, pos);
      var (w, p2) := Read16(data, p1);
      var (qd, p3) := Read16(data, p2);
      var (an, p4) := Read16(data, p3);
      var (ns, p5) := Read16(data, p4);
      var (ar, p6) := Read16(data, p5);
      Some((Header(id, FlagBits(w), w / 0x800 % 0x10, w % 0x10, qd, an, ns, ar), p6))
  }

  /** What a header becomes on the wire and back. */
  function Masked(h: Header): Header {
    h.(flag := FlagBits(h.flag), opcode := h.opcode % 0x10, rcode := h.rcode % 0x10)
  }

  /** The header that six words make. */
  function HeaderOf(id: uint16, w: uint16, qd: uint16, an: uint16, ns: uint16, ar: uint16): Header {
    Header(id, FlagBits(w), w / 0x800 % 0x10, w % 0x10, qd, an, ns, ar)
  }

  function Words(id: uint16, w: uint16, qd: uint16, an: uint16, ns: uint16, ar: uint16): bytes {
    U16(id) + U16(w) + U16(qd) + U16(an) + U16(ns) + U16(ar)
  }

  /** Six words at the start of a message are read as they were written. */
  lemma WordsRead(data: bytes, id: uint16, w: uint16, qd: uint16, an: uint16, ns: uint16, ar: uint16)
    requires |data| >= 12 && data[..12] == Words(id, w, qd, an, ns, ar)
    ensures HeaderFrom(data, 0) == Some((HeaderOf(id, w, qd, an, ns, ar), 12))
  {
    hide FlagBits;
    var out := Words(id, w, qd, an, ns, ar);
    assert forall i :: 0 <= i < 12 ==> data[i] == out[i];
    Uint16ReadsBack(id);
    Uint16ReadsBack(w);
    Uint16ReadsBack(qd);
    Uint16ReadsBack(an);
    Uint16ReadsBack(ns);
    Uint16ReadsBack(ar);
  }

  /** The flag word holds flags, opcode and response code side by side. */
  lemma HeaderReads(h: Header)
    ensures HeaderOf(h.id, FlagWord(h), h.qd, h.an, h.ns, h.ar) == Masked(h)
  {
    FlagWordReads(h.flag, h.opcode, h.rcode);
  }

  /** A written header is read back, its fields cut to their bits. */
  lemma HeaderBack(data: bytes, h: Header)
    requires |data| >= 12 && data[..12] == HeaderOut(h)
    ensures HeaderFrom(data, 0) == Some((Masked(h), 12))
  {
    hide FlagBits, FlagWord, HeaderFrom, Masked, U16;
    WordsRead(data, h.id, FlagWord(h), h.qd, h.an, h.ns, h.ar);
    HeaderReads(h);
  }

  // ----- Records -----

  /** One record: an RRset with at most one piece of data. */
  ghost function RendUnit(st: C.State, u: RRset): (st': C.State)
    requires |st.table| == C.BUCKETS && |u.rdatas| <= 1 && UnitShape(u)
    ensures |st'.table| == C.BUCKETS
  {
    var s1 := C.WriteName(st, Labels(u.name), true);
    var s2 := C.WriteData(s1, Fixed(u));
    if u.rdatas == [] then C.WriteData(s2, U16(0))
    else
      var s3 := C.WriteData(s2, [0, 0]);
      var s4 := R.RendFields(s3, R.Schema(u.typ), u.rdatas[0]);
      C.Patch16(s4, (|s4.buf| - |s2.buf| - 2) % 0x1_0000, |s2.buf|)
  }

  /** Type, class and time to live. */
  function Fixed(u: RRset): bytes {
    U16(u.typ) + U16(u.class_) + U32(u.ttl)
  }

  ghost predicate UnitShape(u: RRset) {
    && Valid(u.name)
    && forall i :: 0 <= i < |u.rdatas| ==> R.Shapes(R.Schema(u.typ), u.rdatas[i])
  }

  datatype UnitRead = GotUnit(u: RRset, next: nat) | BadUnit

  function UnitFrom(data: bytes, pos: nat): (r: UnitRead)
    requires pos <= |data|
    ensures r.GotUnit? ==> r.next <= |data| && |r.u.rdatas| <= 1
  {
    match DecodeName(data, pos)
    case Err(_) => BadUnit
    case Ok(ls, p) =>
      DecodedFits(data, pos);
      if p + 8 > |data| then BadUnit
      else
        var typ := Word16(data[p], data[p + 1]);
        var class_ := Word16(data[p + 2], data[p + 3]);
        var ttl := Word32(data[p + 4], data[p + 5], data[p + 6], data[p + 7]);
        match R.RdataFrom(data, p + 8, typ)
        case BadData => BadUnit
        case NoData(next) => GotUnit(RRset(FromLabels(ls), typ, class_, ttl, []), next)
        case GotData(fs, next) => GotUnit(RRset(FromLabels(ls), typ, class_, ttl, [fs]), next)
  }

  // ----- Records read back -----

  /** Record data of a known type, not TSIG, whose encoding is neither empty nor over 65535 octets. */
  ghost predicate DataOk(t: uint16, fs: seq<R.Field>) {
    && R.Schema(t) != [] && t != R.RR_TSIG && R.FieldsOk(R.Schema(t), fs)
    && 0 < R.FieldsSize(R.Schema(t), fs) < 0x1_0000
  }

  ghost predicate RRsetOk(s: RRset) {
    && Valid(s.name)
    && forall i :: 0 <= i < |s.rdatas| ==> DataOk(s.typ, s.rdatas[i])
  }

  /** Owner and all names in the data are safe to compress. */
  ghost predicate SetSafe(sf: C.Safety, s: RRset) {
    (Valid(s.name) ==> C.Safe(sf, Labels(s.name))) && forall i :: 0 <= i < |s.rdatas| ==> R.FieldsSafe(sf, s.rdatas[i])
  }

  ghost predicate UnitsSafe(sf: C.Safety, us: seq<RRset>) {
    forall i :: 0 <= i < |us| ==> SetSafe(sf, us[i])
  }

  ghost predicate SectionSafe(sf: C.Safety, sec: seq<RRset>) {
    forall i :: 0 <= i < |sec| ==> SetSafe(sf, sec[i])
  }

  ghost predicate SectionsSafe(sf: C.Safety, secs: seq<seq<RRset>>) {
    forall i :: 0 <= i < |secs| ==> SectionSafe(sf, secs[i])
  }

  lemma UnitShapes(u: RRset)
    requires RRsetOk(u)
    ensures UnitShape(u)
  {
    forall i | 0 <= i < |u.rdatas|
      ensures R.Shapes(R.Schema(u.typ), u.rdatas[i])
    {
      assert DataOk(u.typ, u.rdatas[i]);
    }
  }

  lemma GreedySchema(t: uint16)
    ensures R.GreedyLast(R.Schema(t))
  {
  }

  ghost predicate SameRRset(x: RRset, y: RRset) {
    && SameName(x.name, y.name) && x.typ == y.typ && x.class_ == y.class_ && x.ttl == y.ttl
    && |x.rdatas| == |y.rdatas|
    && forall i :: 0 <= i < |x.rdatas| ==> R.SameFields(x.rdatas[i], y.rdatas[i])
  }

  lemma FixedReads(data: bytes, p: nat, u: RRset)
    requires p + 8 <= |data| && data[p..p + 8] == Fixed(u)
    ensures Word16(data[p], data[p + 1]) == u.typ && Word16(data[p + 2], data[p + 3]) == u.class_
    ensures Word32(data[p + 4], data[p + 5], data[p + 6], data[p + 7]) == u.ttl
  {
    var w := data[p..p + 8];
    assert forall i :: 0 <= i < 8 ==> data[p + i] == w[i];
    Uint16ReadsBack(u.typ);
    Uint16ReadsBack(u.class_);
    Uint32ReadsBack(u.ttl);
  }

  /** The intermediate states of rendering a record with data. */
  ghost function BeforeData(st: C.State, u: RRset): (s3: C.State)
    requires |st.table| == C.BUCKETS && Valid(u.name)
    ensures |s3.table| == C.BUCKETS
  {
    C.WriteData(C.WriteData(C.WriteName(st, Labels(u.name), true), Fixed(u)), [0, 0])
  }

  lemma WriteDataReady(sf: C.Safety, st: C.State, data: bytes)
    requires R.Ready(sf, st)
    ensures R.Ready(sf, C.WriteData(st, data)) && R.Ext(st, C.WriteData(st, data), -2)
  {
    C.WriteDataKeeps(st, data);
  }

  lemma WriteNameReady(sf: C.Safety, st: C.State, ls: seq<Label>)
    requires R.Ready(sf, st) && FitsName(ls) && C.Safe(sf, ls)
    ensures R.Ready(sf, C.WriteName(st, ls, true)) && R.Ext(st, C.WriteName(st, ls, true), -2)
  {
    LabelsOfEncoding(ls);
    R.RendFieldKeeps(sf, st, R.CName, R.NameField(FromLabels(ls)));
  }

  /** Back-patching the length touches neither a name nor any other octet. */
  lemma PatchReady(sf: C.Safety, s3: C.State, s4: C.State, v: uint16, pos: nat)
    requires R.Ready(sf, s4) && |s3.mask| == |s3.buf| && pos + 2 == |s3.buf| && !s3.mask[pos] && !s3.mask[pos + 1]
    requires |s3.mask| <= |s4.mask| && s4.mask[..|s3.mask|] == s3.mask
    ensures R.Ready(sf, C.Patch16(s4, v, pos)) && R.Ext(s4, C.Patch16(s4, v, pos), pos)
    ensures Word16(C.Patch16(s4, v, pos).buf[pos], C.Patch16(s4, v, pos).buf[pos + 1]) == v
  {
    assert s4.mask[pos] == s4.mask[..|s3.mask|][pos] && s4.mask[pos + 1] == s4.mask[..|s3.mask|][pos + 1];
    C.PatchKeeps(s4, v, pos);
    Uint16ReadsBack(v);
  }

  lemma ExtPatched(s: C.State, s4: C.State, s': C.State, pos: nat)
    requires R.Ext(s, s4, -2) && R.Ext(s4, s', pos) && |s.buf| <= pos
    ensures R.Ext(s, s', -2)
  {
  }

  lemma {:induction false} MaskGrows(st: C.State, cs: seq<R.Coding>, fs: seq<R.Field>)
    requires |st.table| == C.BUCKETS && R.Shapes(cs, fs)
    ensures var s' := R.RendFields(st, cs, fs); |st.mask| <= |s'.mask| && s'.mask[..|st.mask|] == st.mask
    decreases |cs|
  {
    if cs != [] {
      var s1 := R.RendField(st, cs[0], fs[0]);
      assert |st.mask| <= |s1.mask| && s1.mask[..|st.mask|] == st.mask;
      MaskGrows(s1, cs[1..], fs[1..]);
      var s' := R.RendFields(st, cs, fs);
      assert s'.mask[..|st.mask|] == s'.mask[..|s1.mask|][..|st.mask|];
    }
  }

  lemma BeforeDataKeeps(sf: C.Safety, st: C.State, u: RRset)
    requires R.Ready(sf, st) && Valid(u.name) && C.Safe(sf, Labels(u.name))
    ensures var s3 := BeforeData(st, u);
            && R.Ready(sf, s3) && R.Ext(st, s3, -2) && |s3.mask| == |s3.buf| >= |st.buf| + 2
            && !s3.mask[|s3.buf| - 2] && !s3.mask[|s3.buf| - 1]
  {
    hide C.WriteName, C.ItemOk, C.Safe, C.SafeTable, FitsName, Fixed;
    var s1 := C.WriteName(st, Labels(u.name), true);
    WriteNameReady(sf, st, Labels(u.name));
    var s2 := C.WriteData(s1, Fixed(u));
    WriteDataReady(sf, s1, Fixed(u));
    WriteDataReady(sf, s2, [0, 0]);
    R.ExtTrans(st, s1, s2, -2);
    R.ExtTrans(st, s2, BeforeData(st, u), -2);
  }

  lemma UnitKeepsData(sf: C.Safety, st: C.State, u: RRset)
    requires R.Ready(sf, st) && RRsetOk(u) && SetSafe(sf, u) && |u.rdatas| == 1
    ensures UnitShape(u)
    ensures var s3, s' := BeforeData(st, u), RendUnit(st, u);
            var s4 := R.RendFields(s3, R.Schema(u.typ), u.rdatas[0]);
            && R.Ready(sf, s3) && R.Ready(sf, s4) && R.Ready(sf, s')
            && R.Ext(st, s3, -2) && R.Ext(s3, s4, -2) && R.Ext(s4, s', |s3.buf| - 2) && R.Ext(st, s', -2)
            && |s'.buf| == |s4.buf| && 0 < |s4.buf| - |s3.buf| < 0x1_0000
            && Word16(s'.buf[|s3.buf| - 2], s'.buf[|s3.buf| - 1]) == |s4.buf| - |s3.buf|
  {
    hide C.WriteName, C.ItemOk, C.Safe, C.SafeTable, FitsName, R.RendFields, R.FieldsOk, R.FieldsSize, R.Ext, Fixed,
      Word16, U16;
    UnitShapes(u);
    assert DataOk(u.typ, u.rdatas[0]);
    var s3, s', cs := BeforeData(st, u), RendUnit(st, u), R.Schema(u.typ);
    BeforeDataKeeps(sf, st, u);
    var s4 := R.RendFields(s3, cs, u.rdatas[0]);
    R.RendFieldsKeep(sf, s3, cs, u.rdatas[0]);
    R.FieldsShrink(sf, s3, cs, u.rdatas[0]);
    MaskGrows(s3, cs, u.rdatas[0]);
    assert s' == C.Patch16(s4, |s4.buf| - |s3.buf|, |s3.buf| - 2);
    PatchReady(sf, s3, s4, |s4.buf| - |s3.buf|, |s3.buf| - 2);
    R.ExtTrans(st, s3, s4, -2);
    ExtPatched(st, s4, s', |s3.buf| - 2);
  }

  lemma UnitKeepsNoData(sf: C.Safety, st: C.State, u: RRset)
    requires R.Ready(sf, st) && RRsetOk(u) && SetSafe(sf, u) && u.rdatas == []
    ensures UnitShape(u) && R.Ready(sf, RendUnit(st, u)) && R.Ext(st, RendUnit(st, u), -2)
    ensures var s1 := C.WriteName(st, Labels(u.name), true);
            var s2 := C.WriteData(s1, Fixed(u));
            && R.Ready(sf, s1) && R.Ready(sf, s2) && |s1.mask| == |s1.buf| && |s2.mask| == |s2.buf|
            && R.Ext(s1, RendUnit(st, u), -2) && R.Ext(s2, RendUnit(st, u), -2)
  {
    hide C.WriteName, C.ItemOk, C.Safe, C.SafeTable, FitsName, Fixed;
    var s1 := C.WriteName(st, Labels(u.name), true);
    WriteNameReady(sf, st, Labels(u.name));
    var s2 := C.WriteData(s1, Fixed(u));
    WriteDataReady(sf, s1, Fixed(u));
    WriteDataReady(sf, s2, U16(0));
    R.ExtTrans(st, s1, s2, -2);
    R.ExtTrans(st, s2, RendUnit(st, u), -2);
    R.ExtTrans(s1, s2, RendUnit(st, u), -2);
  }

  /** Owner name, type, class and time to live read back in any later state. */
  lemma PreambleReads(sf: C.Safety, st: C.State, u: RRset, s2: C.State, hole: int)
    requires R.Ready(sf, st) && Valid(u.name) && C.Safe(sf, Labels(u.name))
    requires var s1 := C.WriteName(st, Labels(u.name), true);
             R.Ext(C.WriteData(s1, Fixed(u)), s2, hole) && (hole == -2 || |s1.buf| + 8 <= hole)
    ensures |st.buf| <= |s2.buf|
    ensures var d, p := DecodeName(s2.buf, |st.buf|), |C.WriteName(st, Labels(u.name), true).buf|;
            && d.Ok? && SameLabels(d.ls, Labels(u.name)) && FitsName(d.ls) && d.next == p && p + 8 <= |s2.buf|
            && Word16(s2.buf[p], s2.buf[p + 1]) == u.typ && Word16(s2.buf[p + 2], s2.buf[p + 3]) == u.class_
            && Word32(s2.buf[p + 4], s2.buf[p + 5], s2.buf[p + 6], s2.buf[p + 7]) == u.ttl
  {
    hide C.WriteName, C.ItemOk, C.Safe, C.SafeTable, FitsName, Fixed, SameLabels, DecodeName, Word16, Word32;
    var s1 := C.WriteName(st, Labels(u.name), true);
    WriteNameReady(sf, st, Labels(u.name));
    WriteDataReady(sf, s1, Fixed(u));
    R.ExtWeaken(s1, C.WriteData(s1, Fixed(u)), hole);
    R.ExtTrans(s1, C.WriteData(s1, Fixed(u)), s2, hole);
    R.NameReads(sf, st, Labels(u.name), true, s2, hole);
    DecodedFits(s2.buf, |st.buf|);
    FixedSize(u);
    R.StateSize(s1);
    R.DataReads(s1, Fixed(u), s2, hole);
    FixedReads(s2.buf, |s1.buf|, u);
  }

  lemma FixedSize(u: RRset)
    ensures |Fixed(u)| == 8
  {
  }

  ghost predicate UnitBack(r: UnitRead, u: RRset, next: nat) {
    r.GotUnit? && SameRRset(r.u, u) && r.next == next
  }

  lemma NoDataReads(data: bytes, p: nat, t: uint16)
    requires p + 2 <= |data| && data[p..p + 2] == U16(0)
    ensures R.RdataFrom(data, p, t) == R.NoData(p + 2)
  {
    assert data[p] == data[p..p + 2][0] && data[p + 1] == data[p..p + 2][1];
  }

  lemma UnitReadsNoData(sf: C.Safety, st: C.State, u: RRset, s2: C.State)
    requires R.Ready(sf, st) && RRsetOk(u) && SetSafe(sf, u) && u.rdatas == [] && UnitShape(u)
    requires R.Ext(RendUnit(st, u), s2, -2)
    ensures |st.buf| <= |s2.buf| && UnitBack(UnitFrom(s2.buf, |st.buf|), u, |RendUnit(st, u).buf|)
  {
    hide C.WriteName, C.ItemOk, C.Safe, C.SafeTable, FitsName, Fixed, SameLabels, DecodeName, R.RdataFrom, R.Ext,
      U16, Word16, Word32;
    UnitKeepsNoData(sf, st, u);
    var pre, s' := C.WriteData(C.WriteName(st, Labels(u.name), true), Fixed(u)), RendUnit(st, u);
    R.ExtTrans(pre, s', s2, -2);
    PreambleReads(sf, st, u, s2, -2);
    LabelsOfEncoding(DecodeName(s2.buf, |st.buf|).ls);
    FixedSize(u);
    R.DataReads(pre, U16(0), s2, -2);
    NoDataReads(s2.buf, |pre.buf|, u.typ);
  }

  /** A record with data, written and read back later. */
  lemma UnitReadsData(sf: C.Safety, st: C.State, u: RRset, s2: C.State)
    requires R.Ready(sf, st) && RRsetOk(u) && SetSafe(sf, u) && |u.rdatas| == 1 && UnitShape(u)
    requires R.Ext(RendUnit(st, u), s2, -2)
    ensures |st.buf| <= |s2.buf| && UnitBack(UnitFrom(s2.buf, |st.buf|), u, |RendUnit(st, u).buf|)
  {
    hide C.WriteName, C.ItemOk, C.Safe, C.SafeTable, FitsName, Fixed, SameLabels, DecodeName, R.Schema, R.FieldsFrom,
      R.FieldsOk, R.FieldsSize, R.RendFields, R.SameFields;
    UnitKeepsData(sf, st, u);
    var cs, fs := R.Schema(u.typ), u.rdatas[0];
    assert DataOk(u.typ, fs);
    var s3, s' := BeforeData(st, u), RendUnit(st, u);
    var s4, pos := R.RendFields(s3, cs, fs), |s3.buf| - 2;
    var pre := C.WriteData(C.WriteName(st, Labels(u.name), true), Fixed(u));
    FixedSize(u);
    R.ExtWeaken(s', s2, pos);
    R.ExtTrans(s4, s', s2, pos);
    ExtFixed(sf, st, u, s4, s2, pos);
    PreambleReads(sf, st, u, s2, pos);
    LabelsOfEncoding(DecodeName(s2.buf, |st.buf|).ls);
    GreedySchema(u.typ);
    R.FieldsRead(sf, s3, cs, fs, s2, pos);
    assert s2.buf[pos] == s'.buf[pos] && s2.buf[pos + 1] == s'.buf[pos + 1];
  }

  lemma ExtFixed(sf: C.Safety, st: C.State, u: RRset, s4: C.State, s2: C.State, pos: nat)
    requires R.Ready(sf, st) && Valid(u.name) && C.Safe(sf, Labels(u.name))
    requires R.Ext(BeforeData(st, u), s4, -2) && R.Ext(s4, s2, pos)
    ensures R.Ext(C.WriteData(C.WriteName(st, Labels(u.name), true), Fixed(u)), s2, pos)
  {
    hide C.WriteName, C.ItemOk, C.Safe, C.SafeTable, FitsName, Fixed;
    var s1 := C.WriteName(st, Labels(u.name), true);
    WriteNameReady(sf, st, Labels(u.name));
    var pre := C.WriteData(s1, Fixed(u));
    WriteDataReady(sf, s1, Fixed(u));
    WriteDataReady(sf, pre, [0, 0]);
    R.ExtTrans(pre, BeforeData(st, u), s4, -2);
    R.ExtWeaken(pre, s4, pos);
    R.ExtTrans(pre, s4, s2, pos);
  }

  // ----- Sections -----

  /** The records an RRset is written as: one for each piece of data, or one without any. */
  function Units(s: RRset): (us: seq<RRset>)
    ensures forall i :: 0 <= i < |us| ==> |us[i].rdatas| <= 1
    ensures |us| == if s.rdatas == [] then 1 else |s.rdatas|
  {
    if s.rdatas == [] then [s] else seq(|s.rdatas|, i requires 0 <= i < |s.rdatas| => s.(rdatas := [s.rdatas[i]]))
  }

  function SectionUnits(sec: seq<RRset>): (us: seq<RRset>)
    ensures forall i :: 0 <= i < |us| ==> |us[i].rdatas| <= 1
  {
    if sec == [] then [] else Units(sec[0]) + SectionUnits(sec[1..])
  }

  ghost predicate UnitsOk(us: seq<RRset>) {
    forall i :: 0 <= i < |us| ==> UnitOk(us[i])
  }

  ghost predicate UnitOk(u: RRset) {
    |u.rdatas| <= 1 && UnitShape(u) && RRsetOk(u)
  }

  ghost function RendUnits(st: C.State, us: seq<RRset>): (st': C.State)
    requires |st.table| == C.BUCKETS && UnitsOk(us)
    ensures |st'.table| == C.BUCKETS
    decreases |us|
  {
    if us == [] then st else RendUnits(RendUnit(st, us[0]), us[1..])
  }

  lemma UnitKeeps(sf: C.Safety, st: C.State, u: RRset)
    requires R.Ready(sf, st) && RRsetOk(u) && SetSafe(sf, u) && |u.rdatas| <= 1
    ensures UnitShape(u) && R.Ready(sf, RendUnit(st, u)) && R.Ext(st, RendUnit(st, u), -2)
  {
    hide RRsetOk, RendUnit, R.Ext, C.Inv, C.SafeTable;
    R.StateSize(st);
    if u.rdatas == [] {
      UnitKeepsNoData(sf, st, u);
    } else {
      UnitKeepsData(sf, st, u);
    }
  }

  lemma {:induction false} UnitsKeep(sf: C.Safety, st: C.State, us: seq<RRset>)
    requires R.Ready(sf, st) && UnitsOk(us) && UnitsSafe(sf, us)
    ensures R.Ready(sf, RendUnits(st, us)) && R.Ext(st, RendUnits(st, us), -2)
    decreases |us|
  {
    hide RRsetOk, UnitShape, RendUnit, C.ItemOk, C.SafeTable;
    if us != [] {
      UnitKeeps(sf, st, us[0]);
      UnitsKeep(sf, RendUnit(st, us[0]), us[1..]);
      R.ExtTrans(st, RendUnit(st, us[0]), RendUnits(st, us), -2);
    }
  }

  /** Whether two records belong together: same type and same owner name. */
  ghost predicate Together(x: RRset, y: RRset) {
    x.typ == y.typ && SameName(x.name, y.name)
  }

  datatype Group = Group(done: seq<RRset>, last: Option<RRset>) | Crash

  /** Takes one more record; a second record without data has nothing to hand over. */
  ghost function Join(g: Group, u: RRset): Group
    requires g.Group?
  {
    match g.last
    case None => Group(g.done, Some(u))
    case Some(l) =>
      if !Together(l, u) then Group(g.done + [l], Some(u))
      else if u.rdatas == [] then Crash
      else Group(g.done, Some(l.(rdatas := l.rdatas + [u.rdatas[0]])))
  }

  ghost function JoinAll(g: Group, us: seq<RRset>): Group
    decreases |us|
  {
    if us == [] || g.Crash? then g else JoinAll(Join(g, us[0]), us[1..])
  }

  datatype SectionRead = GotSection(g: Group, next: nat) | BadSection

  /** Reads `count` records, joining neighbours into RRsets. */
  ghost function SectionFrom(data: bytes, pos: nat, count: nat, g: Group): (r: SectionRead)
    requires pos <= |data|
    ensures r.GotSection? ==> r.next <= |data|
    decreases count
  {
    if count == 0 || g.Crash? then GotSection(g, pos)
    else match UnitFrom(data, pos)
      case BadUnit => BadSection
      case GotUnit(u, next) => SectionFrom(data, next, count - 1, Join(g, u))
  }

  ghost predicate SameRRsets(x: seq<RRset>, y: seq<RRset>) {
    |x| == |y| && forall i :: 0 <= i < |x| ==> SameRRset(x[i], y[i])
  }

  lemma UnitReads(sf: C.Safety, st: C.State, u: RRset, s2: C.State)
    requires R.Ready(sf, st) && RRsetOk(u) && SetSafe(sf, u) && |u.rdatas| <= 1 && UnitShape(u)
    requires R.Ext(RendUnit(st, u), s2, -2)
    ensures |st.buf| <= |s2.buf| && UnitBack(UnitFrom(s2.buf, |st.buf|), u, |RendUnit(st, u).buf|)
  {
    if u.rdatas == [] {
      UnitReadsNoData(sf, st, u, s2);
    } else {
      UnitReadsData(sf, st, u, s2);
    }
  }

  /** A written sequence of records is read as some sequence equal to it up to case. */
  lemma {:induction false} UnitsRead(sf: C.Safety, st: C.State, us: seq<RRset>, s2: C.State, g: Group)
    returns (vs: seq<RRset>)
    requires R.Ready(sf, st) && UnitsOk(us) && UnitsSafe(sf, us) && R.Ext(RendUnits(st, us), s2, -2)
    ensures |st.buf| <= |s2.buf| && SameRRsets(vs, us)
    ensures !JoinAll(g, vs).Crash? ==>
              SectionFrom(s2.buf, |st.buf|, |us|, g) == GotSection(JoinAll(g, vs), |RendUnits(st, us).buf|)
    decreases |us|
  {
    hide RRsetOk, UnitShape, RendUnit, C.ItemOk, C.SafeTable, UnitFrom, SameRRset, Join;
    if us == [] {
      vs := [];
    } else {
      UnitKeeps(sf, st, us[0]);
      var s1 := RendUnit(st, us[0]);
      UnitsKeep(sf, s1, us[1..]);
      R.ExtTrans(s1, RendUnits(st, us), s2, -2);
      UnitReads(sf, st, us[0], s2);
      var r := UnitFrom(s2.buf, |st.buf|);
      var rest := UnitsRead(sf, s1, us[1..], s2, if g.Crash? then g else Join(g, r.u));
      vs := [r.u] + rest;
      assert vs[1..] == rest;
    }
  }

  // ----- Records joined into RRsets -----

  lemma SameNameSym(x: Name, y: Name)
    requires SameName(x, y)
    ensures SameName(y, x)
  {
    forall i | 0 <= i < |Labels(x)|
      ensures SameFold(Labels(y)[i], Labels(x)[i])
    {
      assert SameFold(Labels(x)[i], Labels(y)[i]);
    }
  }

  lemma SameNameTrans(x: Name, y: Name, z: Name)
    requires SameName(x, y) && SameName(y, z)
    ensures SameName(x, z)
  {
    C.SameLabelsThrough(Labels(x), Labels(y), Labels(z));
  }

  /** The first `k` pieces of data of an RRset. */
  function Upto(s: RRset, k: nat): RRset
    requires k <= |s.rdatas|
  {
    s.(rdatas := s.rdatas[..k])
  }

  lemma JoinOne(done: seq<RRset>, cur: RRset, s: RRset, k: nat, v: RRset)
    requires 1 <= k < |s.rdatas| && Valid(s.name) && SameRRset(cur, Upto(s, k)) && SameRRset(v, Units(s)[k])
    ensures var cur' := cur.(rdatas := cur.rdatas + v.rdatas);
            Join(Group(done, Some(cur)), v) == Group(done, Some(cur')) && SameRRset(cur', Upto(s, k + 1))
  {
    hide SameName, R.SameFields;
    SameNameSym(v.name, s.name);
    SameNameTrans(cur.name, s.name, v.name);
    var cur' := cur.(rdatas := cur.rdatas + v.rdatas);
    assert v.rdatas == [v.rdatas[0]];
    forall i | 0 <= i <= k
      ensures R.SameFields(cur'.rdatas[i], Upto(s, k + 1).rdatas[i])
    {
      if i < k {
        assert R.SameFields(cur.rdatas[i], Upto(s, k).rdatas[i]);
      }
    }
  }

  /** The records of one RRset grow the same last entry until it is complete. */
  lemma {:induction false} JoinRun(done: seq<RRset>, cur: RRset, s: RRset, k: nat, vs: seq<RRset>, rest: seq<RRset>)
    returns (all: RRset)
    requires 1 <= k <= |s.rdatas| && Valid(s.name) && SameRRset(cur, Upto(s, k)) && SameRRsets(vs, Units(s)[k..])
    ensures SameRRset(all, s)
    ensures JoinAll(Group(done, Some(cur)), vs + rest) == JoinAll(Group(done, Some(all)), rest)
    decreases |s.rdatas| - k
  {
    hide SameRRset, Join;
    if k == |s.rdatas| {
      assert Upto(s, k) == s && vs + rest == rest;
      all := cur;
    } else {
      assert SameRRset(vs[0], Units(s)[k..][0]);
      JoinOne(done, cur, s, k, vs[0]);
      assert (vs + rest)[1..] == vs[1..] + rest;
      forall i | 0 <= i < |vs[1..]|
        ensures SameRRset(vs[1..][i], Units(s)[k + 1..][i])
      {
        assert SameRRset(vs[i + 1], Units(s)[k..][i + 1]);
      }
      all := JoinRun(done, cur.(rdatas := cur.rdatas + vs[0].rdatas), s, k + 1, vs[1..], rest);
    }
  }

  lemma FirstUnit(s: RRset, v: RRset)
    requires Valid(s.name) && SameRRset(v, Units(s)[0])
    ensures SameName(v.name, s.name) && v.typ == s.typ
    ensures s.rdatas == [] ==> SameRRset(v, s)
    ensures s.rdatas != [] ==> SameRRset(v, Upto(s, 1))
  {
    if s.rdatas != [] {
      assert Units(s)[0].rdatas[0] == s.rdatas[0];
      assert R.SameFields(v.rdatas[0], Units(s)[0].rdatas[0]);
    }
  }

  function Whole(g: Group): seq<RRset>
    requires g.Group?
  {
    if g.last.Some? then g.done + [g.last.value] else g.done
  }

  ghost predicate Apart(last: Option<RRset>, sec: seq<RRset>) {
    last.Some? && sec != [] ==> !Together(last.value, sec[0])
  }

  ghost predicate SectionOk(sec: seq<RRset>) {
    && (forall i :: 0 <= i < |sec| ==> RRsetOk(sec[i]))
    && forall i :: 0 <= i < |sec| - 1 ==> Differ(sec, i)
  }

  ghost predicate Differ(sec: seq<RRset>, i: nat)
    requires i < |sec| - 1
  {
    !Together(sec[i], sec[i + 1])
  }

  /** The first record of an RRset opens a new entry when the last one is a stranger to it. */
  lemma Opens(g: Group, s: RRset, v: RRset)
    requires g.Group? && SameName(v.name, s.name) && v.typ == s.typ && (g.last.Some? ==> !Together(g.last.value, s))
    ensures Join(g, v) == Group(Whole(g), Some(v))
  {
    hide SameName;
    if g.last.Some? && Together(g.last.value, v) {
      SameNameTrans(g.last.value.name, v.name, s.name);
    }
  }

  /** All records of the first RRset end up in one new entry. */
  lemma JoinFirst(sec: seq<RRset>, vs: seq<RRset>, g: Group) returns (all: RRset)
    requires sec != [] && RRsetOk(sec[0]) && SameRRsets(vs, SectionUnits(sec)) && g.Group? && Apart(g.last, sec)
    ensures |Units(sec[0])| <= |vs| && SameRRset(all, sec[0])
    ensures JoinAll(g, vs) == JoinAll(Group(Whole(g), Some(all)), vs[|Units(sec[0])|..])
  {
    hide SameRRset, Join, RRsetOk, Together, SectionUnits;
    var s, n := sec[0], |Units(sec[0])|;
    ValidOwner(s);
    SplitUnits(sec, vs);
    var mine, rest := vs[..n], vs[n..];
    FirstUnit(s, vs[0]);
    Opens(g, s, vs[0]);
    all := vs[0];
    if s.rdatas != [] {
      TailUnits(s, mine);
      all := JoinRun(Whole(g), vs[0], s, 1, mine[1..], rest);
      assert mine[1..] + rest == vs[1..];
    } else {
      assert rest == vs[1..];
    }
  }

  /** Joining the records of a section gives back its RRsets. */
  lemma {:induction false} JoinSection(sec: seq<RRset>, vs: seq<RRset>, g: Group) returns (back: seq<RRset>)
    requires SectionOk(sec) && SameRRsets(vs, SectionUnits(sec)) && g.Group? && Apart(g.last, sec)
    ensures SameRRsets(back, sec)
    ensures JoinAll(g, vs).Group? && Whole(JoinAll(g, vs)) == Whole(g) + back
    decreases |sec|
  {
    hide SameRRset, Join, RRsetOk, Together, Units;
    if sec == [] {
      back := [];
    } else {
      var all := JoinFirst(sec, vs, g);
      SplitUnits(sec, vs);
      StillApart(all, sec);
      var more := JoinSection(sec[1..], vs[|Units(sec[0])|..], Group(Whole(g), Some(all)));
      back := [all] + more;
      assert Whole(g) + [all] + more == Whole(g) + back;
    }
  }

  lemma ValidOwner(s: RRset)
    requires RRsetOk(s)
    ensures Valid(s.name)
  {
  }

  lemma SplitUnits(sec: seq<RRset>, vs: seq<RRset>)
    requires sec != [] && SameRRsets(vs, SectionUnits(sec))
    ensures var n := |Units(sec[0])|;
            n <= |vs| && SameRRsets(vs[..n], Units(sec[0])) && SameRRsets(vs[n..], SectionUnits(sec[1..]))
  {
    hide SameRRset, Units;
    var n := |Units(sec[0])|;
    forall i | 0 <= i < n
      ensures SameRRset(vs[..n][i], Units(sec[0])[i])
    {
      assert SameRRset(vs[i], SectionUnits(sec)[i]);
    }
    forall i | 0 <= i < |vs| - n
      ensures SameRRset(vs[n..][i], SectionUnits(sec[1..])[i])
    {
      assert SameRRset(vs[n + i], SectionUnits(sec)[n + i]);
    }
  }

  lemma TailUnits(s: RRset, mine: seq<RRset>)
    requires SameRRsets(mine, Units(s))
    ensures SameRRsets(mine[1..], Units(s)[1..])
  {
    hide SameRRset;
  }

  lemma TailOk(sec: seq<RRset>)
    requires SectionOk(sec) && sec != []
    ensures SectionOk(sec[1..])
  {
    hide RRsetOk;
    forall i | 0 <= i < |sec[1..]| - 1
      ensures Differ(sec[1..], i)
    {
      assert Differ(sec, i + 1);
    }
  }

  lemma StillApart(all: RRset, sec: seq<RRset>)
    requires SectionOk(sec) && sec != [] && SameRRset(all, sec[0])
    ensures Apart(Some(all), sec[1..]) && SectionOk(sec[1..])
  {
    hide RRsetOk;
    if |sec| > 1 {
      assert Differ(sec, 0);
      if Together(all, sec[1]) {
        SameNameSym(all.name, sec[0].name);
        SameNameTrans(sec[0].name, all.name, sec[1].name);
      }
    }
    TailOk(sec);
  }

  // ----- Whole messages -----

  ghost function RendQuestion(st: C.State, q: Question): (st': C.State)
    requires |st.table| == C.BUCKETS && Valid(q.name)
    ensures |st'.table| == C.BUCKETS
  {
    C.WriteData(C.WriteName(st, Labels(q.name), true), U16(q.typ) + U16(q.class_))
  }

  function QuestionFrom(data: bytes, pos: nat): (r: Option<(Question, nat)>)
    requires pos <= |data|
    ensures r.Some? ==> r.value.1 <= |data|
  {
    match DecodeName(data, pos)
    case Err(_) => None
    case Ok(ls, p) =>
      DecodedFits(data, pos);
      if p + 4 > |data| then None
      else Some((Question(FromLabels(ls), Word16(data[p], data[p + 1]), Word16(data[p + 2], data[p + 3])), p + 4))
  }

  ghost function RendMessage(st: C.State, m: Message): (st': C.State)
    requires |st.table| == C.BUCKETS && ContentOk(m)
    ensures |st'.table| == C.BUCKETS
  {
    var s0 := C.WriteData(st, HeaderOut(m.header));
    var s1 := if m.question.Some? then RendQuestion(s0, m.question.value) else s0;
    RendSections(s1, m.sections)
  }

  ghost function RendSections(st: C.State, secs: seq<seq<RRset>>): (st': C.State)
    requires |st.table| == C.BUCKETS && SectionsOk(secs)
    ensures |st'.table| == C.BUCKETS
    decreases |secs|
  {
    if secs == [] then st
    else
      SectionUnitsOk(secs[0]);
      RendSections(RendUnits(st, SectionUnits(secs[0])), secs[1..])
  }

  ghost predicate SectionsOk(secs: seq<seq<RRset>>) {
    forall i :: 0 <= i < |secs| ==> SectionOk(secs[i])
  }

  lemma UnitsAreOk(s: RRset)
    requires RRsetOk(s)
    ensures UnitsOk(Units(s))
  {
    forall i | 0 <= i < |Units(s)|
      ensures UnitOk(Units(s)[i])
    {
      var u := Units(s)[i];
      assert s.rdatas != [] ==> DataOk(s.typ, s.rdatas[i]);
      UnitShapes(u);
    }
  }

  lemma {:induction false} SectionUnitsSafe(sf: C.Safety, sec: seq<RRset>)
    requires SectionSafe(sf, sec)
    ensures UnitsSafe(sf, SectionUnits(sec))
    decreases |sec|
  {
    hide SetSafe;
    if sec != [] {
      SectionUnitsSafe(sf, sec[1..]);
      UnitsAreSafe(sf, sec[0]);
    }
  }

  lemma UnitsAreSafe(sf: C.Safety, s: RRset)
    requires SetSafe(sf, s)
    ensures UnitsSafe(sf, Units(s))
  {
    forall i | 0 <= i < |Units(s)|
      ensures SetSafe(sf, Units(s)[i])
    {
      assert s.rdatas != [] ==> R.FieldsSafe(sf, s.rdatas[i]);
    }
  }

  lemma {:induction false} SectionUnitsOk(sec: seq<RRset>)
    requires SectionOk(sec)
    ensures UnitsOk(SectionUnits(sec))
    decreases |sec|
  {
    hide RRsetOk, Units, UnitOk, Together;
    if sec != [] {
      UnitsAreOk(sec[0]);
      TailOk(sec);
      SectionUnitsOk(sec[1..]);
    }
  }

  /** Well-formed names, data that fits, neighbours that differ in name or type. */
  ghost predicate ContentOk(m: Message) {
    && (m.question.Some? ==> Valid(m.question.value.name))
    && |m.sections| == SECTIONS && SectionsOk(m.sections)
    && m.edns.None? && m.tsig.None?
  }

  /** Every name of a message is safe to compress. */
  ghost predicate MessageSafe(sf: C.Safety, m: Message) {
    && (m.question.Some? && Valid(m.question.value.name) ==> C.Safe(sf, Labels(m.question.value.name)))
    && SectionsSafe(sf, m.sections)
  }

  predicate SetAside(t: uint16) {
    t == R.RR_OPT || t == R.RR_TSIG
  }

  /** The record counts are the recomputed ones, and the header has no bits outside its fields. */
  ghost predicate HeaderOk(m: Message)
    requires |m.sections| == SECTIONS
  {
    && Masked(m.header) == m.header
    && m.header.qd == (if m.question.Some? then 1 else 0)
    && m.header.an == |SectionUnits(m.sections[0])|
    && m.header.ns == |SectionUnits(m.sections[1])|
    && m.header.ar == |SectionUnits(m.sections[2])|
  }

  ghost predicate MessageOk(m: Message) {
    && ContentOk(m) && HeaderOk(m)
    && var extra := m.sections[ADDITIONAL];
    && (extra != [] ==> !SetAside(extra[|extra| - 1].typ))
  }

  // ----- Recomputed counts -----

  /** The records of a section; an RRset without data counts as one. */
  function RRCount(sec: seq<RRset>): nat {
    if sec == [] then 0
    else RRCount(sec[..|sec| - 1]) + if sec[|sec| - 1].rdatas == [] then 1 else |sec[|sec| - 1].rdatas|
  }

  /** EDNS counts as many records as it has options, and one without any. */
  function EdnsCount(edns: Option<RRset>, options: nat): nat {
    if edns.None? then 0 else if options == 0 then 1 else options
  }

  /** The counts as `RecalculateSectionRRCount` sets them, each kept to a word. */
  function Recounted(m: Message, options: nat): Message
    requires |m.sections| == SECTIONS
  {
    m.(header := m.header.(qd := if m.question.Some? then 1 else 0, an := RRCount(m.sections[0]) % 0x1_0000,
                           ns := RRCount(m.sections[1]) % 0x1_0000,
                           ar := (RRCount(m.sections[2]) + EdnsCount(m.edns, options)) % 0x1_0000))
  }

  lemma {:induction false} SectionUnitsAppend(sec: seq<RRset>, s: RRset)
    ensures SectionUnits(sec + [s]) == SectionUnits(sec) + Units(s)
    decreases |sec|
  {
    hide Units;
    if sec == [] {
      assert sec + [s] == [s] && [s][1..] == [];
    } else {
      assert (sec + [s])[1..] == sec[1..] + [s];
      SectionUnitsAppend(sec[1..], s);
    }
  }

  lemma {:induction false} UnitsCounted(sec: seq<RRset>)
    ensures RRCount(sec) == |SectionUnits(sec)|
    decreases |sec|
  {
    if sec != [] {
      UnitsCounted(sec[..|sec| - 1]);
      SectionUnitsAppend(sec[..|sec| - 1], sec[|sec| - 1]);
      assert sec[..|sec| - 1] + [sec[|sec| - 1]] == sec;
    }
  }

  /**
    * Recomputing makes the counts right exactly when no section has more records than a word
    * can count. With EDNS the last count is that of the additional records and the options.
    */
  lemma RecountRight(m: Message, options: nat)
    requires |m.sections| == SECTIONS && Masked(m.header) == m.header
    ensures m.edns.None? ==>
      (HeaderOk(Recounted(m, options)) <==>
       forall i :: 0 <= i < SECTIONS ==> |SectionUnits(m.sections[i])| < 0x1_0000)
    ensures var ar, n := Recounted(m, options).header.ar, |SectionUnits(m.sections[2])|;
      && (m.edns.None? ==> ar == n % 0x1_0000) && (m.edns.Some? && options == 0 ==> ar == (n + 1) % 0x1_0000)
      && (m.edns.Some? && options > 0 ==> ar == (n + options) % 0x1_0000)
  {
    hide SectionUnits, RRCount;
    UnitsCounted(m.sections[0]);
    UnitsCounted(m.sections[1]);
    UnitsCounted(m.sections[2]);
    if forall i :: 0 <= i < SECTIONS ==> |SectionUnits(m.sections[i])| < 0x1_0000 {
      assert |SectionUnits(m.sections[0])| < 0x1_0000 && |SectionUnits(m.sections[1])| < 0x1_0000;
      assert |SectionUnits(m.sections[2])| < 0x1_0000;
    }
  }

  datatype MessageRead = GotMessage(m: Message) | BadMessage | CrashMessage

  function Count(h: Header, i: nat): uint16 {
    if i == 0 then h.an else if i == 1 then h.ns else h.ar
  }

  /** Reads the sections from number `i` on into `m`. */
  ghost function SectionsFrom(data: bytes, pos: nat, m: Message, i: nat): MessageRead
    requires pos <= |data| && i <= SECTIONS
    decreases SECTIONS - i
  {
    if i == SECTIONS then GotMessage(m)
    else match SectionFrom(data, pos, Count(m.header, i), Group([], None))
      case BadSection => BadMessage
      case GotSection(g, next) =>
        if g.Crash? || TsigMissing(g, i) then CrashMessage else SectionsFrom(data, next, PutSection(m, g, i), i + 1)
  }

  /** A TSIG RRset that is set aside without any data, which `TSIGFromRRset` asks for. */
  ghost predicate TsigMissing(g: Group, i: nat) {
    g.Group? && i == ADDITIONAL && g.last.Some? && g.last.value.typ == R.RR_TSIG && g.last.value.rdatas == []
  }

  /** What `TSIGFromRRset` keeps of an RRset: the first piece of data. */
  function FirstOnly(s: RRset): RRset {
    if |s.rdatas| <= 1 then s else s.(rdatas := s.rdatas[..1])
  }

  ghost function PutSection(m: Message, g: Group, i: nat): Message
    requires g.Group?
  {
    if i == ADDITIONAL && g.last.Some? && g.last.value.typ == R.RR_OPT then
      m.(sections := m.sections + [g.done], edns := g.last)
    else if i == ADDITIONAL && g.last.Some? && g.last.value.typ == R.RR_TSIG then
      m.(sections := m.sections + [g.done], tsig := Some(FirstOnly(g.last.value)))
    else m.(sections := m.sections + [Whole(g)])
  }

  ghost function FromWire(data: bytes, pos: nat): MessageRead
    requires pos <= |data|
  {
    match HeaderFrom(data, pos)
    case None => BadMessage
    case Some((h, p)) =>
      HeaderBound(data, pos);
      if h.qd != 1 then SectionsFrom(data, p, Message(h, None, [], None, None), 0)
      else match QuestionFrom(data, p)
        case None => BadMessage
        case Some((q, p')) => SectionsFrom(data, p', Message(h, Some(q), [], None, None), 0)
  }

  lemma HeaderBound(data: bytes, pos: nat)
    requires pos <= |data|
    ensures HeaderFrom(data, pos).Some? ==> HeaderFrom(data, pos).value.1 <= |data|
  {
  }

  ghost predicate SameSections(x: seq<seq<RRset>>, y: seq<seq<RRset>>) {
    |x| == |y| && forall i :: 0 <= i < |x| ==> SameRRsets(x[i], y[i])
  }

  /** Equality of messages up to the case of names. */
  ghost predicate SameMessage(x: Message, y: Message) {
    && x.header == y.header && x.edns == y.edns && x.tsig == y.tsig
    && (if y.question.Some? then
          && x.question.Some? && SameName(x.question.value.name, y.question.value.name)
          && x.question.value.typ == y.question.value.typ && x.question.value.class_ == y.question.value.class_
        else x.question.None?)
    && SameSections(x.sections, y.sections)
  }

  lemma {:induction false} SectionsKeep(sf: C.Safety, st: C.State, secs: seq<seq<RRset>>)
    requires R.Ready(sf, st) && SectionsOk(secs) && SectionsSafe(sf, secs)
    ensures R.Ready(sf, RendSections(st, secs)) && R.Ext(st, RendSections(st, secs), -2)
    decreases |secs|
  {
    hide SectionOk, RendUnits, C.ItemOk, C.SafeTable, SectionUnits, UnitsOk;
    if secs != [] {
      SectionUnitsOk(secs[0]);
      SectionUnitsSafe(sf, secs[0]);
      UnitsKeep(sf, st, SectionUnits(secs[0]));
      var s1 := RendUnits(st, SectionUnits(secs[0]));
      SectionsKeep(sf, s1, secs[1..]);
      R.ExtTrans(st, s1, RendSections(st, secs), -2);
    }
  }

  /** One rendered section is read and joined into the same RRsets. */
  lemma SectionReads(sf: C.Safety, st: C.State, sec: seq<RRset>, s2: C.State) returns (back: seq<RRset>, g: Group)
    requires R.Ready(sf, st) && SectionOk(sec) && UnitsOk(SectionUnits(sec)) && SectionSafe(sf, sec)
    requires R.Ext(RendUnits(st, SectionUnits(sec)), s2, -2)
    ensures |st.buf| <= |s2.buf| && SameRRsets(back, sec) && g.Group? && Whole(g) == back
    ensures SectionFrom(s2.buf, |st.buf|, |SectionUnits(sec)|, Group([], None))
            == GotSection(g, |RendUnits(st, SectionUnits(sec)).buf|)
  {
    hide SectionUnits, RRsetOk, SameRRset, RendUnits, SectionFrom, JoinAll, R.Ext, C.Inv, C.SafeTable, Together, UnitOk;
    var g0 := Group([], None);
    SectionUnitsSafe(sf, sec);
    var vs := UnitsRead(sf, st, SectionUnits(sec), s2, g0);
    back := JoinSection(sec, vs, g0);
    g := JoinAll(g0, vs);
    assert Whole(g0) + back == back;
  }

  lemma CountOf(m: Message, i: nat)
    requires MessageOk(m) && i < SECTIONS
    ensures Count(m.header, i) == |SectionUnits(m.sections[i])|
  {
    hide SectionUnits, SectionsOk;
  }

  /** A section is put whole unless its last RRset is one to be set aside. */
  lemma PutsWhole(m: Message, i: nat, cur: Message, back: seq<RRset>, g: Group)
    requires MessageOk(m) && i < SECTIONS && SameRRsets(back, m.sections[i]) && g.Group? && Whole(g) == back
    ensures PutSection(cur, g, i) == cur.(sections := cur.sections + [back]) && !TsigMissing(g, i)
  {
    hide SectionsOk, HeaderOk;
    if i == ADDITIONAL && g.last.Some? {
      var k := |back| - 1;
      assert SameRRset(back[k], m.sections[i][k]);
    }
  }

  lemma {:induction false} SectionsRead(sf: C.Safety, st: C.State, m: Message, i: nat, cur: Message, s2: C.State)
    returns (m': Message)
    requires R.Ready(sf, st) && MessageOk(m) && MessageSafe(sf, m) && i <= SECTIONS && SectionsOk(m.sections[i..])
    requires R.Ext(RendSections(st, m.sections[i..]), s2, -2)
    requires cur.header == m.header && SameSections(cur.sections, m.sections[..i])
    ensures |st.buf| <= |s2.buf| && SectionsFrom(s2.buf, |st.buf|, cur, i) == GotMessage(m')
    ensures m' == cur.(sections := m'.sections) && SameSections(m'.sections, m.sections)
    decreases SECTIONS - i
  {
    hide MessageOk, SectionOk, RendUnits, C.ItemOk, C.SafeTable, SectionUnits, UnitsOk, SameRRsets, R.Ext,
      SectionFrom, Count, PutSection, TsigMissing;
    assert |m.sections| == SECTIONS by { ThreeSections(m); }
    if i == SECTIONS {
      assert m.sections[..i] == m.sections && m.sections[i..] == [];
      ExtSize(st, s2);
      m' := cur;
    } else {
      var sec := m.sections[i];
      assert m.sections[i..][0] == sec && m.sections[i..][1..] == m.sections[i + 1..];
      RestSafe(sf, m, i);
      SectionUnitsOk(sec);
      var s1 := RendUnits(st, SectionUnits(sec));
      SectionUnitsSafe(sf, sec);
      UnitsKeep(sf, st, SectionUnits(sec));
      SectionsKeep(sf, s1, m.sections[i + 1..]);
      R.ExtTrans(s1, RendSections(st, m.sections[i..]), s2, -2);
      var back, g := SectionReads(sf, st, sec, s2);
      CountOf(m, i);
      PutsWhole(m, i, cur, back, g);
      var next := cur.(sections := cur.sections + [back]);
      assert m.sections[..i + 1] == m.sections[..i] + [sec];
      m' := SectionsRead(sf, s1, m, i + 1, next, s2);
    }
  }

  lemma RestSafe(sf: C.Safety, m: Message, i: nat)
    requires MessageOk(m) && MessageSafe(sf, m) && i < |m.sections| && SectionsOk(m.sections[i..])
    ensures SectionOk(m.sections[i]) && SectionSafe(sf, m.sections[i])
    ensures SectionsOk(m.sections[i + 1..]) && SectionsSafe(sf, m.sections[i + 1..])
  {
    hide SectionOk, SectionSafe;
    var rest := m.sections[i + 1..];
    forall j | 0 <= j < |rest|
      ensures SectionOk(rest[j]) && SectionSafe(sf, rest[j])
    {
      assert rest[j] == m.sections[i + 1 + j] == m.sections[i..][j + 1];
    }
    assert m.sections[i] == m.sections[i..][0];
  }

  lemma ThreeSections(m: Message)
    requires MessageOk(m)
    ensures |m.sections| == SECTIONS && SectionsOk(m.sections)
  {
  }

  lemma HeaderSize(h: Header)
    ensures |HeaderOut(h)| == 12
  {
  }

  lemma ExtPrefix(s: C.State, s': C.State)
    requires R.Ext(s, s', -2)
    ensures |s.buf| <= |s'.buf| && s'.buf[..|s.buf|] == s.buf
  {
  }

  lemma ExtSize(s: C.State, s': C.State)
    requires R.Ext(s, s', -2)
    ensures |s.buf| <= |s'.buf|
  {
  }

  lemma QuestionReads(sf: C.Safety, st: C.State, q: Question, s2: C.State)
    requires R.Ready(sf, st) && Valid(q.name) && C.Safe(sf, Labels(q.name)) && R.Ext(RendQuestion(st, q), s2, -2)
    ensures |st.buf| <= |s2.buf|
    ensures var r := QuestionFrom(s2.buf, |st.buf|);
            && r.Some? && r.value.1 == |RendQuestion(st, q).buf|
            && SameName(r.value.0.name, q.name) && r.value.0.typ == q.typ && r.value.0.class_ == q.class_
  {
    hide C.WriteName, C.ItemOk, C.Safe, C.SafeTable, FitsName, SameLabels, DecodeName;
    var s1, w := C.WriteName(st, Labels(q.name), true), U16(q.typ) + U16(q.class_);
    WriteNameReady(sf, st, Labels(q.name));
    WriteDataReady(sf, s1, w);
    R.ExtTrans(s1, RendQuestion(st, q), s2, -2);
    R.NameReads(sf, st, Labels(q.name), true, s2, -2);
    DecodedFits(s2.buf, |st.buf|);
    LabelsOfEncoding(DecodeName(s2.buf, |st.buf|).ls);
    R.DataReads(s1, w, s2, -2);
    var p := |s1.buf|;
    assert s2.buf[p] == w[0] && s2.buf[p + 1] == w[1] && s2.buf[p + 2] == w[2] && s2.buf[p + 3] == w[3] by {
      assert s2.buf[p..p + 4] == w;
    }
    Uint16ReadsBack(q.typ);
    Uint16ReadsBack(q.class_);
  }

  lemma QuestionKeeps(sf: C.Safety, st: C.State, q: Question)
    requires R.Ready(sf, st) && Valid(q.name) && C.Safe(sf, Labels(q.name))
    ensures R.Ready(sf, RendQuestion(st, q)) && R.Ext(st, RendQuestion(st, q), -2)
  {
    hide C.WriteName, C.ItemOk, C.Safe, C.SafeTable, FitsName;
    WriteNameReady(sf, st, Labels(q.name));
    var s1 := C.WriteName(st, Labels(q.name), true);
    WriteDataReady(sf, s1, U16(q.typ) + U16(q.class_));
    R.ExtTrans(st, s1, RendQuestion(st, q), -2);
  }

  lemma FreshReady(sf: C.Safety)
    ensures R.Ready(sf, C.Fresh())
  {
  }

  /**
    * Parsing what a fresh renderer wrote for a message gives the message back, up to the
    * case of names, although names of all sections share one compression table.
    */
  lemma RoundTrip(sf: C.Safety, m: Message)
    requires MessageOk(m) && MessageSafe(sf, m)
    ensures var r := FromWire(RendMessage(C.Fresh(), m).buf, 0); r.GotMessage? && SameMessage(r.m, m)
  {
    hide C.WriteName, C.Inv, C.Safe, C.SafeTable, R.Ext, HeaderOut, SectionsFrom, SectionsOk, RendSections,
      QuestionFrom, RendQuestion, SameSections, HeaderFrom, MessageOk, SetAside, SectionUnits;
    MessageParts(m);
    FreshReady(sf);
    var st := C.Fresh();
    var s0 := C.WriteData(st, HeaderOut(m.header));
    WriteDataReady(sf, st, HeaderOut(m.header));
    var s1 := if m.question.Some? then RendQuestion(s0, m.question.value) else s0;
    if m.question.Some? {
      QuestionKeeps(sf, s0, m.question.value);
    } else {
      ExtRefl(sf, s0);
    }
    SectionsKeep(sf, s1, m.sections);
    var s2 := RendMessage(st, m);
    R.ExtTrans(s0, s1, s2, -2);
    assert s0.buf == HeaderOut(m.header);
    ExtPrefix(s0, s2);
    HeaderSize(m.header);
    HeaderBack(s2.buf, m.header);
    ExtRefl(sf, s2);
    var first := Message(m.header, None, [], None, None);
    if m.question.Some? {
      QuestionReads(sf, s0, m.question.value, s2);
      first := first.(question := Some(QuestionFrom(s2.buf, |s0.buf|).value.0));
    }
    assert m.sections[0..] == m.sections && m.sections[..0] == [];
    NoSections();
    var m' := SectionsRead(sf, s1, m, 0, first, s2);
  }

  lemma MessageParts(m: Message)
    requires MessageOk(m)
    ensures ContentOk(m) && Masked(m.header) == m.header && (m.header.qd == 1 <==> m.question.Some?)
  {
  }

  lemma NoSections()
    ensures SameSections([], [])
  {
  }

  lemma ExtRefl(sf: C.Safety, s: C.State)
    requires R.Ready(sf, s)
    ensures R.Ext(s, s, -2)
  {
  }
}
