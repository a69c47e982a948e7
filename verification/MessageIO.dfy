/**
  * The methods that move a read cursor over a message or drive a renderer, each proved
  * to do what the corresponding function on values says.
  */
module MessageIO {
  import opened Octets
  import opened Options
  import opened Names
  import opened NameWire
  import NameOrder
  import C = Compression
  import opened Render
  import R = Rdata
  import T = TypeBitmap
  import opened Messages

  // ----- Reading -----

  method StringFromWire(buf: InputBuffer, ll: nat) returns (r: R.Read<bytes>)
    requires buf.Valid()
    modifies buf`pos
    ensures buf.Valid() && r == R.StringFrom(buf.data, old(buf.pos), ll) && (r.Got? ==> buf.pos == r.pos)
  {
    var ok, l := buf.ReadUint8();
    if !ok || ll < 1 || l > ll - 1 {
      return R.Bad;
    }
    var ok', bs := buf.ReadBytes(l);
    if !ok' {
      return R.Bad;
    }
    r := R.Got(bs, buf.pos, ll - 1 - l);
  }

  /** What is read from here on, put behind what has been collected. */
  ghost function After<T>(acc: seq<T>, rest: R.Read<seq<T>>): R.Read<seq<T>> {
    if rest.Got? then R.Got(acc + rest.value, rest.pos, rest.left) else R.Bad
  }

  lemma AfterNone<T>(r: R.Read<seq<T>>)
    ensures After([], r) == r
  {
    if r.Got? {
      assert [] + r.value == r.value;
    }
  }

  lemma AfterOne<T>(acc: seq<T>, x: T, r: R.Read<seq<T>>)
    ensures After(acc, After([x], r)) == After(acc + [x], r)
  {
    if r.Got? {
      assert acc + ([x] + r.value) == acc + [x] + r.value;
    }
  }

  method StringsFromWire(buf: InputBuffer, ll: nat) returns (r: R.Read<seq<bytes>>)
    requires buf.Valid()
    modifies buf`pos
    ensures buf.Valid() && r == R.StringsFrom(buf.data, old(buf.pos), ll) && (r.Got? ==> buf.pos == r.pos)
  {
    hide R.StringFrom, After;
    var ss: seq<bytes>, left := [], ll;
    AfterNone(R.StringsFrom(buf.data, buf.pos, ll));
    while left > 0
      invariant buf.Valid() && left >= 0
      invariant R.StringsFrom(buf.data, old(buf.pos), ll) == After(ss, R.StringsFrom(buf.data, buf.pos, left))
    {
      StringsStep(buf.data, buf.pos, left);
      ghost var pos := buf.pos;
      var s := StringFromWire(buf, left);
      if s.Bad? {
        assert After(ss, R.Bad) == R.Bad by { AfterBad(ss); }
        return R.Bad;
      }
      AfterOne(ss, s.value, R.StringsFrom(buf.data, s.pos, s.left));
      ss, left := ss + [s.value], s.left;
    }
    AfterGot(ss, buf.pos, 0);
    r := R.Got(ss, buf.pos, 0);
  }

  lemma AfterBad<T>(acc: seq<T>)
    ensures After(acc, R.Bad) == R.Bad
  {
  }

  lemma AfterGot<T>(acc: seq<T>, pos: nat, left: nat)
    ensures After(acc, R.Got([], pos, left)) == R.Got(acc, pos, left)
  {
    assert acc + [] == acc;
  }

  lemma StringsStep(data: bytes, pos: nat, ll: nat)
    requires pos <= |data| && ll > 0
    ensures match R.StringFrom(data, pos, ll)
            case Bad => R.StringsFrom(data, pos, ll) == R.Bad
            case Got(s, pos', ll') =>
              ll' < ll && R.StringsFrom(data, pos, ll) == After([s], R.StringsFrom(data, pos', ll'))
  {
  }

  method FieldFromWire(c: R.Coding, buf: InputBuffer, ll: uint16) returns (r: R.Read<R.Field>)
    requires buf.Valid()
    modifies buf`pos
    ensures buf.Valid() && r == R.FieldFrom(buf.data, old(buf.pos), c, ll) && (r.Got? ==> buf.pos == r.pos)
  {
    hide DecodeName, R.StringFrom, R.StringsFrom, FromLabels, T.Decode;
    match c
    case CName | CNameUncompress =>
      var pos := buf.pos;
      var n := NameFromWire(buf, true);
      DecodedFits(buf.data, pos);
      if n.Failed? || ll < buf.pos - pos {
        return R.Bad;
      }
      r := R.Got(R.NameField(n.name), buf.pos, ll - (buf.pos - pos));
    case CUint8 =>
      var ok, d := buf.ReadUint8();
      r := if !ok || ll < 1 then R.Bad else R.Got(R.U8Field(d), buf.pos, ll - 1);
    case CUint16 =>
      var ok, d := buf.ReadUint16();
      r := if !ok || ll < 2 then R.Bad else R.Got(R.U16Field(d), buf.pos, ll - 2);
    case CUint32 =>
      var ok, d := buf.ReadUint32();
      r := if !ok || ll < 4 then R.Bad else R.Got(R.U32Field(d), buf.pos, ll - 4);
    case CIPv4 =>
      var ok, d := buf.ReadBytes(4);
      r := if !ok || ll < 4 then R.Bad else R.Got(R.BytesField(d), buf.pos, ll - 4);
    case CIPv6 =>
      var ok, d := buf.ReadBytes(16);
      r := if !ok || ll < 16 then R.Bad else R.Got(R.BytesField(d), buf.pos, ll - 16);
    case CBinary =>
      var ok, d := buf.ReadBytes(ll);
      r := if !ok then R.Bad else R.Got(R.BytesField(d), buf.pos, 0);
    case CByteBinary =>
      var s := StringFromWire(buf, ll);
      r := R.InField(s);
    case CSized =>
      var ok, l := buf.ReadUint8();
      if !ok || ll < 1 {
        return R.Bad;
      }
      var ok', bs := buf.ReadBytes(l);
      r := if !ok' then R.Bad else R.Got(R.BytesField(bs), buf.pos, (ll - 1 - l) % 0x1_0000);
    case CWide =>
      var ok, l := buf.ReadUint16();
      if !ok || ll < 2 {
        return R.Bad;
      }
      var ok', bs := buf.ReadBytes(l);
      r := if !ok' then R.Bad else R.Got(R.BytesField(bs), buf.pos, (ll - 2 - l) % 0x1_0000);
    case CTypes =>
      var ok, bs := buf.ReadBytes(ll);
      if !ok {
        return R.Bad;
      }
      var types := T.DecodeTypes(bs);
      r := if types.BadTypes? then R.Bad else R.Got(R.TypesField(types.ts), buf.pos, 0);
    case CTxt =>
      var s := StringsFromWire(buf, ll);
      r := if s.Bad? then R.Bad else R.Got(R.TxtField(s.value), s.pos, s.left);
  }

  /** The fields of a record type in turn, then the check that nothing is left over. */
  method RdataFromWire(t: uint16, buf: InputBuffer) returns (r: R.RdataRead)
    requires buf.Valid()
    modifies buf`pos
    ensures buf.Valid() && r == R.RdataFrom(buf.data, old(buf.pos), t) && (!r.BadData? ==> buf.pos == r.next)
  {
    hide R.FieldFrom, R.Schema, After;
    var ok, rdlen := buf.ReadUint16();
    if !ok {
      return R.BadData;
    }
    if rdlen == 0 {
      return R.NoData(buf.pos);
    }
    var cs := R.Schema(t);
    if cs == [] {
      return R.BadData;
    }
    var fs: seq<R.Field>, ll: uint16 := [], rdlen;
    ghost var start := buf.pos;
    assert cs[0..] == cs;
    AfterNone(R.FieldsFrom(buf.data, start, cs, rdlen));
    for i := 0 to |cs|
      invariant buf.Valid()
      invariant R.FieldsFrom(buf.data, start, cs, rdlen) == After(fs, R.FieldsFrom(buf.data, buf.pos, cs[i..], ll))
    {
      FieldsStep(buf.data, buf.pos, cs[i..], ll);
      var f := FieldFromWire(cs[i], buf, ll);
      if f.Bad? {
        AfterBad(fs);
        return R.BadData;
      }
      assert cs[i..][1..] == cs[i + 1..];
      AfterOne(fs, f.value, R.FieldsFrom(buf.data, f.pos, cs[i + 1..], f.left));
      fs, ll := fs + [f.value], f.left;
    }
    AfterGot(fs, buf.pos, ll);
    assert cs[|cs|..] == [];
    if ll != 0 {
      return R.BadData;
    }
    r := R.GotData(fs, buf.pos);
  }

  lemma FieldsStep(data: bytes, pos: nat, cs: seq<R.Coding>, ll: nat)
    requires pos <= |data| && cs != [] && ll < 0x1_0000
    ensures match R.FieldFrom(data, pos, cs[0], ll)
            case Bad => R.FieldsFrom(data, pos, cs, ll) == R.Bad
            case Got(f, pos', ll') =>
              && pos' <= |data| && ll' < 0x1_0000
              && R.FieldsFrom(data, pos, cs, ll) == After([f], R.FieldsFrom(data, pos', cs[1..], ll'))
  {
    R.FieldAccounts(data, pos, cs[0], ll);
    DecodedFits(data, pos);
  }

  method RRsetFromWire(buf: InputBuffer) returns (r: UnitRead)
    requires buf.Valid()
    modifies buf`pos
    ensures buf.Valid() && r == UnitFrom(buf.data, old(buf.pos)) && (r.GotUnit? ==> buf.pos == r.next)
    ensures r.GotUnit? ==> Names.Valid(r.u.name)
  {
    hide DecodeName, R.RdataFrom, FromLabels, FitsName;
    DecodedFits(buf.data, buf.pos);
    ghost var d := DecodeName(buf.data, buf.pos);
    var n := NameFromWire(buf, false);
    if n.Failed? {
      return BadUnit;
    }
    assert FoldLabels(false, d.ls) == d.ls;
    LabelsOfEncoding(d.ls);
    var ok1, typ := buf.ReadUint16();
    if !ok1 {
      return BadUnit;
    }
    var ok2, class_ := buf.ReadUint16();
    if !ok2 {
      return BadUnit;
    }
    var ok3, ttl := buf.ReadUint32();
    if !ok3 {
      return BadUnit;
    }
    var rdata := RdataFromWire(typ, buf);
    match rdata
    case BadData => r := BadUnit;
    case NoData(next) => r := GotUnit(RRset(n.name, typ, class_, ttl, []), next);
    case GotData(fs, next) => r := GotUnit(RRset(n.name, typ, class_, ttl, [fs]), next);
  }

  method IsSameRRset(x: RRset, y: RRset) returns (same: bool)
    requires Names.Valid(x.name) && Names.Valid(y.name)
    ensures same == Together(x, y)
  {
    var eq := NameOrder.Equals(x.name, y.name);
    same := x.typ == y.typ && eq;
  }

  /** Reads a section record by record; records of the same RRset are merged into the last one. */
  method SectionFromWire(buf: InputBuffer, count: nat) returns (r: SectionRead)
    requires buf.Valid()
    modifies buf`pos
    ensures buf.Valid() && r == SectionFrom(buf.data, old(buf.pos), count, Group([], None))
    ensures r.GotSection? && r.g.Group? ==> buf.pos == r.next
  {
    hide UnitFrom, Together, Valid;
    var s: seq<RRset>, lastRRset: Option<RRset> := [], None;
    for i := 0 to count
      invariant buf.Valid() && (lastRRset.Some? ==> Names.Valid(lastRRset.value.name))
      invariant SectionFrom(buf.data, old(buf.pos), count, Group([], None))
                == SectionFrom(buf.data, buf.pos, count - i, Group(s, lastRRset))
    {
      var u := RRsetFromWire(buf);
      if u.BadUnit? {
        return BadSection;
      }
      var rrset := u.u;
      if lastRRset.None? {
        lastRRset := Some(rrset);
      } else {
        var last := lastRRset.value;
        var same := IsSameRRset(last, rrset);
        if !same {
          s, lastRRset := s + [last], Some(rrset);
        } else if rrset.rdatas == [] {
          // indexing the missing data of the record aborts the program
          return GotSection(Crash, buf.pos);
        } else {
          lastRRset := Some(last.(rdatas := last.rdatas + [rrset.rdatas[0]]));
        }
      }
    }
    r := GotSection(Group(s, lastRRset), buf.pos);
  }

  method HeaderFromWire(buf: InputBuffer) returns (r: Option<Header>)
    requires buf.Valid()
    modifies buf`pos
    ensures buf.Valid()
    ensures match HeaderFrom(buf.data, old(buf.pos))
            case None => r.None?
            case Some((h, p)) => r == Some(h) && buf.pos == p
  {
    hide FlagBits;
    if |buf.data| < 12 {
      return None;
    }
    var _, id := buf.ReadUint16();
    var _, flag := buf.ReadUint16();
    var _, qd := buf.ReadUint16();
    var _, an := buf.ReadUint16();
    var _, ns := buf.ReadUint16();
    var _, ar := buf.ReadUint16();
    r := Some(Header(id, FlagBits(flag), flag / 0x800 % 0x10, flag % 0x10, qd, an, ns, ar));
  }

  method QuestionFromWire(buf: InputBuffer) returns (r: Option<Question>)
    requires buf.Valid()
    modifies buf`pos
    ensures buf.Valid()
    ensures match QuestionFrom(buf.data, old(buf.pos))
            case None => r.None?
            case Some((q, p)) => r == Some(q) && buf.pos == p
  {
    hide DecodeName, FromLabels, FitsName;
    DecodedFits(buf.data, buf.pos);
    ghost var d := DecodeName(buf.data, buf.pos);
    var n := NameFromWire(buf, false);
    if n.Failed? {
      return None;
    }
    assert FoldLabels(false, d.ls) == d.ls;
    var ok1, typ := buf.ReadUint16();
    if !ok1 {
      return None;
    }
    var ok2, class_ := buf.ReadUint16();
    if !ok2 {
      return None;
    }
    r := Some(Question(n.name, typ, class_));
  }

  method MessageFromWire(buf: InputBuffer) returns (r: MessageRead)
    requires buf.Valid()
    modifies buf`pos
    ensures r == FromWire(buf.data, old(buf.pos))
  {
    hide SectionFrom, QuestionFrom, HeaderFrom;
    HeaderBound(buf.data, buf.pos);
    var h := HeaderFromWire(buf);
    if h.None? {
      return BadMessage;
    }
    var m := Message(h.value, None, [], None, None);
    if h.value.qd == 1 {
      var q := QuestionFromWire(buf);
      if q.None? {
        return BadMessage;
      }
      m := m.(question := q);
    }
    for i := 0 to SECTIONS
      invariant buf.Valid() && m.header == h.value
      invariant FromWire(buf.data, old(buf.pos)) == SectionsFrom(buf.data, buf.pos, m, i)
    {
      var s := SectionFromWire(buf, Count(m.header, i));
      if s.BadSection? {
        return BadMessage;
      }
      if s.g.Crash? {
        return CrashMessage;
      }
      var last := s.g.last;
      if i == ADDITIONAL && last.Some? && last.value.typ == R.RR_OPT {
        m := m.(sections := m.sections + [s.g.done], edns := last);
      } else if i == ADDITIONAL && last.Some? && last.value.typ == R.RR_TSIG {
        if last.value.rdatas == [] {
          // indexing the missing data of the TSIG record aborts the program
          return CrashMessage;
        }
        var tsig := last.value.(rdatas := [last.value.rdatas[0]]);
        assert tsig == FirstOnly(last.value);
        m := m.(sections := m.sections + [s.g.done], tsig := Some(tsig));
      } else {
        m := m.(sections := m.sections + [Whole(s.g)]);
      }
    }
    r := GotMessage(m);
  }

  // ----- Writing -----

  lemma WriteDataTwice(st: C.State, x: bytes, y: bytes)
    ensures C.WriteData(C.WriteData(st, x), y) == C.WriteData(st, x + y)
  {
    assert st.buf + x + y == st.buf + (x + y);
    assert st.mask + C.Marks(|x|, false) + C.Marks(|y|, false) == st.mask + C.Marks(|x + y|, false);
  }

  lemma WriteNothing(st: C.State)
    ensures C.WriteData(st, []) == st
  {
    assert st.buf + [] == st.buf && st.mask + C.Marks(0, false) == st.mask;
  }

  method RendString(render: MsgRender, s: bytes)
    requires render.Valid()
    modifies render`st, render.buf
    ensures render.Valid() && render.st == C.WriteData(old(render.st), R.StringOut(s))
  {
    WriteDataTwice(render.st, [|s| % 0x100], s);
    render.WriteUint8(|s| % 0x100);
    render.WriteData(s);
  }

  method RendStrings(render: MsgRender, ss: seq<bytes>)
    requires render.Valid()
    modifies render`st, render.buf
    ensures render.Valid() && render.st == C.WriteData(old(render.st), R.StringsOut(ss))
  {
    hide C.WriteData, R.StringOut;
    ghost var out: bytes := [];
    WriteNothing(render.st);
    for i := 0 to |ss|
      invariant render.Valid() && render.st == C.WriteData(old(render.st), out)
      invariant R.StringsOut(ss) == out + R.StringsOut(ss[i..])
    {
      WriteDataTwice(old(render.st), out, R.StringOut(ss[i]));
      RendString(render, ss[i]);
      assert ss[i..][1..] == ss[i + 1..] && ss[i..][0] == ss[i];
      assert out + (R.StringOut(ss[i]) + R.StringsOut(ss[i + 1..]))
        == out + R.StringOut(ss[i]) + R.StringsOut(ss[i + 1..]);
      out := out + R.StringOut(ss[i]);
    }
    assert out + [] == out;
  }

  /** A length of two octets and the octets. */
  method RendWide(render: MsgRender, bs: bytes)
    requires render.Valid()
    modifies render`st, render`table, render.buf, render.seqHashs
    ensures render.Valid() && render.st == C.WriteData(old(render.st), U16(|bs| % 0x1_0000) + bs)
  {
    hide C.WriteData, C.Inv, U16;
    WriteDataTwice(render.st, U16(|bs| % 0x1_0000), bs);
    render.WriteUint16(|bs| % 0x1_0000);
    render.WriteData(bs);
  }

  method RendField(render: MsgRender, c: R.Coding, f: R.Field)
    requires render.Valid() && R.Shape(c, f)
    modifies render`st, render`table, render.buf, render.seqHashs
    ensures render.Valid() && render.st == R.RendField(old(render.st), c, f)
  {
    hide C.WriteName, C.WriteData, R.StringOut, R.StringsOut, C.Inv;
    match f
    case NameField(name) => render.WriteName(name, c.CName?);
    case U8Field(v) => render.WriteUint8(v);
    case U16Field(v) => render.WriteUint16(v);
    case U32Field(v) => render.WriteUint32(v);
    case BytesField(bs) =>
      if c.CByteBinary? || c.CSized? {
        RendString(render, bs);
      } else if c.CWide? {
        RendWide(render, bs);
      } else {
        render.WriteData(bs);
      }
    case TxtField(ss) => RendStrings(render, ss);
    case TypesField(ts) =>
      var bitmap := T.EncodeTypes(ts);
      render.WriteData(bitmap.octets);
  }

  method RendFields(render: MsgRender, cs: seq<R.Coding>, fs: seq<R.Field>)
    requires render.Valid() && R.Shapes(cs, fs)
    modifies render`st, render`table, render.buf, render.seqHashs
    ensures render.Valid() && render.st == R.RendFields(old(render.st), cs, fs)
  {
    hide R.RendField, C.ItemOk, R.Shape, Stores;
    assert cs[0..] == cs && fs[0..] == fs;
    for i := 0 to |cs|
      invariant render.Valid() && R.Shapes(cs[i..], fs[i..])
      invariant R.RendFields(old(render.st), cs, fs) == R.RendFields(render.st, cs[i..], fs[i..])
    {
      assert cs[i..][0] == cs[i] && cs[i..][1..] == cs[i + 1..] && fs[i..][0] == fs[i] && fs[i..][1..] == fs[i + 1..];
      RendField(render, cs[i], fs[i]);
    }
  }

  /** Owner name, type, class and time to live. */
  method RendPreamble(render: MsgRender, s: RRset)
    requires render.Valid() && Names.Valid(s.name)
    modifies render`st, render`table, render.buf, render.seqHashs
    ensures render.Valid() && render.st == C.WriteData(C.WriteName(old(render.st), Labels(s.name), true), Fixed(s))
  {
    hide C.WriteName, C.WriteData, C.Inv, U16, U32;
    render.WriteName(s.name, true);
    ghost var s1 := render.st;
    WriteDataTwice(s1, U16(s.typ), U16(s.class_));
    WriteDataTwice(s1, U16(s.typ) + U16(s.class_), U32(s.ttl));
    render.WriteUint16(s.typ);
    render.WriteUint16(s.class_);
    render.WriteUint32(s.ttl);
  }

  /** One record with data: the length is skipped first and patched in at the end. */
  method RendRecord(render: MsgRender, s: RRset, rdata: seq<R.Field>)
    requires render.Valid() && UnitShape(s.(rdatas := [rdata]))
    modifies render`st, render`table, render.buf, render.seqHashs
    ensures render.Valid() && render.st == RendUnit(old(render.st), s.(rdatas := [rdata]))
  {
    hide C.WriteName, C.ItemOk, R.RendFields, R.Shapes, Stores, U16, U32;
    ghost var u := s.(rdatas := [rdata]);
    assert R.Shapes(R.Schema(u.typ), u.rdatas[0]);
    RendPreamble(render, s);
    var pos := |render.buf.data|;
    render.Skip(2);
    ghost var s3 := render.st;
    assert s3 == BeforeData(old(render.st), u);
    RendFields(render, R.Schema(s.typ), rdata);
    MaskGrows(s3, R.Schema(s.typ), rdata);
    ghost var s4 := render.st;
    assert s4.mask[pos] == s4.mask[..|s3.mask|][pos] && s4.mask[pos + 1] == s4.mask[..|s3.mask|][pos + 1];
    var _ := render.WriteUint16At((|render.buf.data| - pos - 2) % 0x1_0000, pos);
  }

  method RendRRset(render: MsgRender, s: RRset)
    requires render.Valid() && RRsetOk(s) && UnitsOk(Units(s))
    modifies render`st, render`table, render.buf, render.seqHashs
    ensures render.Valid() && render.st == RendUnits(old(render.st), Units(s))
  {
    hide C.WriteName, C.ItemOk, RRsetOk, UnitShape, Fixed, Stores, U16;
    ghost var us := Units(s);
    assert us[0..] == us;
    if |s.rdatas| == 0 {
      assert UnitOk(us[0]) && us[0] == s && us[1..] == [];
      ValidOwner(s);
      assert RendUnits(render.st, us) == RendUnits(RendUnit(render.st, us[0]), us[1..]);
      RendPreamble(render, s);
      render.WriteUint16(0);
    } else {
      for i := 0 to |s.rdatas|
        invariant render.Valid() && UnitsOk(us[i..])
        invariant RendUnits(old(render.st), us) == RendUnits(render.st, us[i..])
      {
        assert us[i..][0] == us[i] && us[i..][1..] == us[i + 1..] && UnitOk(us[i..][0]);
        RendRecord(render, s, s.rdatas[i]);
      }
      assert us[|s.rdatas|..] == [];
    }
  }

  lemma {:induction false} RendUnitsSplit(st: C.State, us: seq<RRset>, vs: seq<RRset>)
    requires |st.table| == C.BUCKETS && UnitsOk(us) && UnitsOk(vs) && UnitsOk(us + vs)
    ensures RendUnits(st, us + vs) == RendUnits(RendUnits(st, us), vs)
    decreases |us|
  {
    hide RendUnit, UnitOk;
    if us == [] {
      assert us + vs == vs;
    } else {
      assert (us + vs)[1..] == us[1..] + vs;
      assert UnitOk(us[0]) && (us + vs)[0] == us[0];
      assert |us[0].rdatas| <= 1 && UnitShape(us[0]) by { UnitOkParts(us[0]); }
      RendUnitsSplit(RendUnit(st, us[0]), us[1..], vs);
    }
  }

  lemma UnitOkParts(u: RRset)
    requires UnitOk(u)
    ensures |u.rdatas| <= 1 && UnitShape(u)
  {
  }

  method RendSection(render: MsgRender, sec: seq<RRset>)
    requires render.Valid() && SectionOk(sec) && UnitsOk(SectionUnits(sec))
    modifies render`st, render`table, render.buf, render.seqHashs
    ensures render.Valid() && render.st == RendUnits(old(render.st), SectionUnits(sec))
  {
    hide RRsetOk, UnitOk, Units, Together, C.ItemOk, Stores;
    assert sec[0..] == sec;
    for i := 0 to |sec|
      invariant render.Valid() && UnitsOk(SectionUnits(sec[i..]))
      invariant RendUnits(old(render.st), SectionUnits(sec)) == RendUnits(render.st, SectionUnits(sec[i..]))
    {
      assert sec[i..][0] == sec[i] && sec[i..][1..] == sec[i + 1..];
      UnitsAreOk(sec[i]);
      RestOk(sec, i);
      RendUnitsSplit(render.st, Units(sec[i]), SectionUnits(sec[i + 1..]));
      RendRRset(render, sec[i]);
    }
  }

  lemma {:induction false} RestOk(sec: seq<RRset>, i: nat)
    requires SectionOk(sec) && i < |sec|
    ensures UnitsOk(SectionUnits(sec[i + 1..]))
    decreases i
  {
    hide SectionOk, SectionUnits;
    TailOk(sec);
    if i == 0 {
      SectionUnitsOk(sec[1..]);
    } else {
      RestOk(sec[1..], i - 1);
      assert sec[1..][i..] == sec[i + 1..];
    }
  }

  method RendHeader(render: MsgRender, h: Header)
    requires render.Valid()
    modifies render`st, render.buf
    ensures render.Valid() && render.st == C.WriteData(old(render.st), HeaderOut(h))
  {
    hide C.WriteData, C.Inv, U16, FlagWord;
    ghost var st, w := render.st, U16(h.id);
    render.WriteUint16(h.id);
    WriteDataTwice(st, w, U16(FlagWord(h)));
    render.WriteUint16(FlagWord(h));
    w := w + U16(FlagWord(h));
    WriteDataTwice(st, w, U16(h.qd));
    render.WriteUint16(h.qd);
    w := w + U16(h.qd);
    WriteDataTwice(st, w, U16(h.an));
    render.WriteUint16(h.an);
    w := w + U16(h.an);
    WriteDataTwice(st, w, U16(h.ns));
    render.WriteUint16(h.ns);
    w := w + U16(h.ns);
    WriteDataTwice(st, w, U16(h.ar));
    render.WriteUint16(h.ar);
  }

  method RendMessageInto(render: MsgRender, m: Message)
    requires render.Valid() && ContentOk(m)
    modifies render`st, render`table, render.buf, render.seqHashs
    ensures render.Valid() && render.st == RendMessage(old(render.st), m)
  {
    hide C.WriteName, C.WriteData, C.ItemOk, Stores, HeaderOut, RendUnits, SectionOk, UnitsOk, U16;
    RendHeader(render, m.header);
    if m.question.Some? {
      var q := m.question.value;
      render.WriteName(q.name, true);
      WriteDataTwice(render.st, U16(q.typ), U16(q.class_));
      render.WriteUint16(q.typ);
      render.WriteUint16(q.class_);
    }
    ghost var s1 := render.st;
    assert m.sections[0..] == m.sections;
    for i := 0 to SECTIONS
      invariant render.Valid() && SectionsOk(m.sections[i..])
      invariant RendSections(s1, m.sections) == RendSections(render.st, m.sections[i..])
    {
      assert m.sections[i..][0] == m.sections[i] && m.sections[i..][1..] == m.sections[i + 1..];
      SectionUnitsOk(m.sections[i]);
      RendSection(render, m.sections[i]);
    }
    assert m.sections[SECTIONS..] == [];
  }

  method SectionRRCount(sec: seq<RRset>) returns (count: nat)
    ensures count == RRCount(sec)
  {
    count := 0;
    for i := 0 to |sec|
      invariant count == RRCount(sec[..i])
    {
      assert sec[..i + 1][..i] == sec[..i];
      var rrCount := |sec[i].rdatas|;
      if rrCount == 0 {
        rrCount := 1;
      }
      count := count + rrCount;
    }
    assert sec[..|sec|] == sec;
  }

  /** Recomputes the counts of a message, whose EDNS record, if it has one, has so many options. */
  method RecalculateSectionRRCount(m: Message, options: nat) returns (m': Message)
    requires |m.sections| == SECTIONS
    ensures m' == Recounted(m, options)
  {
    hide RRCount;
    var an := SectionRRCount(m.sections[0]);
    var ns := SectionRRCount(m.sections[1]);
    var ar := SectionRRCount(m.sections[ADDITIONAL]);
    m' := m.(header := m.header.(qd := if m.question.None? then 0 else 1, an := an % 0x1_0000, ns := ns % 0x1_0000,
                                 ar := ar % 0x1_0000));
    if m.edns.Some? {
      var extra := if options == 0 then 1 else options;
      WordSum(ar, extra);
      m' := m'.(header := m'.header.(ar := (m'.header.ar + extra % 0x1_0000) % 0x1_0000));
    }
  }

  lemma WordSum(a: nat, b: nat)
    ensures (a % 0x1_0000 + b % 0x1_0000) % 0x1_0000 == (a + b) % 0x1_0000
  {
  }

  /** The library's own round trip: render into a fresh renderer, then parse its buffer. */
  method RenderAndParse(ghost sf: C.Safety, m: Message) returns (r: MessageRead)
    requires MessageOk(m) && MessageSafe(sf, m)
    ensures r.GotMessage? && SameMessage(r.m, m)
  {
    hide RendMessage, FromWire, SameMessage, HeaderOk, ContentOk;
    var render := new MsgRender();
    RendMessageInto(render, m);
    RoundTrip(sf, m);
    var buf := new InputBuffer(render.buf.data);
    r := MessageFromWire(buf);
  }
}
