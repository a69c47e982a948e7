/**
  * When parsing a message panics: exactly when some section holds, right behind a record, one
  * of the same name and type that announces no data, or when the last additional record is a
  * TSIG record that announces none.
  */
module MessageCrash {
  import opened Octets
  import opened Options
  import opened Names
  import opened NameWire
  import R = Rdata
  import opened Messages

  // ----- One section -----

  /** Record number `i` of those that begin at `pos`. */
  ghost function Record(data: bytes, pos: nat, i: nat): UnitRead
    requires pos <= |data|
    decreases i
  {
    match UnitFrom(data, pos)
    case BadUnit => BadUnit
    case GotUnit(u, next) => if i == 0 then GotUnit(u, next) else Record(data, next, i - 1)
  }

  /** Record `i` can be read, has no data, and belongs to the record before it. */
  ghost predicate Clash(data: bytes, pos: nat, i: nat)
    requires pos <= |data|
  {
    && i > 0 && Record(data, pos, i - 1).GotUnit? && Record(data, pos, i).GotUnit?
    && Record(data, pos, i).u.rdatas == [] && Together(Record(data, pos, i - 1).u, Record(data, pos, i).u)
  }

  lemma UnitValid(data: bytes, pos: nat)
    requires pos <= |data| && UnitFrom(data, pos).GotUnit?
    ensures Valid(UnitFrom(data, pos).u.name)
  {
    DecodedFits(data, pos);
    LabelsOfEncoding(DecodeName(data, pos).ls);
  }

  lemma TogetherTrans(x: RRset, y: RRset, z: RRset)
    requires Together(x, y)
    ensures Together(y, z) ==> Together(x, z)
    ensures Together(x, z) ==> Together(y, z)
  {
    SameNameSym(x.name, y.name);
    if Together(y, z) {
      SameNameTrans(x.name, y.name, z.name);
    }
    if Together(x, z) {
      SameNameTrans(y.name, x.name, z.name);
    }
  }

  lemma TogetherSelf(x: RRset)
    requires Valid(x.name)
    ensures Together(x, x)
  {
  }

  /** The record at `pos` clashes with the one that came before it. */
  ghost predicate Meets(data: bytes, pos: nat, last: RRset)
    requires pos <= |data|
  {
    var r := UnitFrom(data, pos);
    r.GotUnit? && r.u.rdatas == [] && Together(last, r.u)
  }

  /** Some of the first `count` records, in pairs of neighbours, clash. */
  ghost predicate HasClash(data: bytes, pos: nat, count: nat)
    requires pos <= |data|
  {
    exists i :: 0 < i < count && Clash(data, pos, i)
  }

  /** A clash among the records after the one just read, or of the first of them with it. */
  ghost predicate ClashAfter(data: bytes, pos: nat, count: nat, last: RRset)
    requires pos <= |data|
  {
    count > 0 && (Meets(data, pos, last) || HasClash(data, pos, count))
  }

  lemma ClashShift(data: bytes, pos: nat, count: nat)
    requires pos <= |data| && count > 0 && UnitFrom(data, pos).GotUnit?
    ensures var r := UnitFrom(data, pos);
      HasClash(data, pos, count) <==> ClashAfter(data, r.next, count - 1, r.u)
  {
    hide UnitFrom, Together;
    var r := UnitFrom(data, pos);
    if i :| 0 < i < count && Clash(data, pos, i) {
      if i > 1 {
        assert Clash(data, r.next, i - 1);
      }
    }
    if ClashAfter(data, r.next, count - 1, r.u) {
      if Meets(data, r.next, r.u) {
        assert Clash(data, pos, 1);
      } else {
        var i :| 0 < i < count - 1 && Clash(data, r.next, i);
        assert Clash(data, pos, i + 1);
      }
    }
  }

  lemma SectionStep(data: bytes, pos: nat, count: nat, g: Group)
    requires pos <= |data| && g.Group?
    ensures count == 0 ==> SectionFrom(data, pos, count, g) == GotSection(g, pos)
    ensures count > 0 && UnitFrom(data, pos).BadUnit? ==> SectionFrom(data, pos, count, g) == BadSection
    ensures count > 0 && UnitFrom(data, pos).GotUnit? ==>
              var r := UnitFrom(data, pos);
              SectionFrom(data, pos, count, g) == SectionFrom(data, r.next, count - 1, Join(g, r.u))
  {
  }

  lemma SectionCrashed(data: bytes, pos: nat, count: nat)
    requires pos <= |data|
    ensures SectionFrom(data, pos, count, Crash) == GotSection(Crash, pos)
  {
  }

  /** A record that cannot be read ends every clash. */
  lemma NoClash(data: bytes, pos: nat, count: nat, prev: RRset)
    requires pos <= |data| && (count == 0 || UnitFrom(data, pos).BadUnit?)
    ensures !ClashAfter(data, pos, count, prev)
  {
  }

  ghost predicate Panics(s: SectionRead) {
    s.GotSection? && s.g.Crash?
  }

  lemma ClashFirst(data: bytes, pos: nat, count: nat, prev: RRset)
    requires pos <= |data| && count > 0 && UnitFrom(data, pos).GotUnit?
    ensures var r := UnitFrom(data, pos);
      && (Meets(data, pos, prev) <==> r.u.rdatas == [] && Together(prev, r.u))
      && (ClashAfter(data, pos, count, prev) <==> Meets(data, pos, prev) || ClashAfter(data, r.next, count - 1, r.u))
  {
    ClashShift(data, pos, count);
  }

  lemma JoinIs(done: seq<RRset>, l: RRset, u: RRset)
    requires Valid(u.name)
    ensures var j := Join(Group(done, Some(l)), u);
      if Together(l, u) && u.rdatas == [] then j == Crash
      else j.Group? && j.last.Some? && Together(j.last.value, u)
  {
    TogetherSelf(u);
  }

  /** Once there is a last RRset, whose records agree in name and type with `prev`. */
  lemma {:induction false} JoinCrash(data: bytes, pos: nat, count: nat, done: seq<RRset>, l: RRset, prev: RRset)
    requires pos <= |data| && Together(l, prev)
    ensures Panics(SectionFrom(data, pos, count, Group(done, Some(l)))) <==> ClashAfter(data, pos, count, prev)
    decreases count
  {
    hide UnitFrom, SectionFrom, Join, Together, ClashAfter, Meets;
    SectionStep(data, pos, count, Group(done, Some(l)));
    if count == 0 || UnitFrom(data, pos).BadUnit? {
      NoClash(data, pos, count, prev);
    } else {
      var r := UnitFrom(data, pos);
      UnitValid(data, pos);
      ClashFirst(data, pos, count, prev);
      TogetherTrans(l, prev, r.u);
      JoinIs(done, l, r.u);
      var j := Join(Group(done, Some(l)), r.u);
      if j.Crash? {
        SectionCrashed(data, r.next, count - 1);
      } else {
        JoinCrash(data, r.next, count - 1, j.done, j.last.value, r.u);
      }
    }
  }

  /** Reading a section panics exactly when two neighbours in it clash. */
  lemma SectionCrash(data: bytes, pos: nat, count: nat)
    requires pos <= |data|
    ensures Panics(SectionFrom(data, pos, count, Group([], None))) <==> HasClash(data, pos, count)
  {
    hide UnitFrom, SectionFrom, Together, ClashAfter, Meets, Clash;
    SectionStep(data, pos, count, Group([], None));
    if count > 0 {
      if UnitFrom(data, pos).BadUnit? {
        BadFirst(data, pos, count);
      } else {
        var r := UnitFrom(data, pos);
        UnitValid(data, pos);
        TogetherSelf(r.u);
        ClashShift(data, pos, count);
        JoinCrash(data, r.next, count - 1, [], r.u, r.u);
      }
    }
  }

  lemma BadFirst(data: bytes, pos: nat, count: nat)
    requires pos <= |data| && UnitFrom(data, pos).BadUnit?
    ensures !HasClash(data, pos, count)
  {
  }

  // ----- Whole messages -----

  /** Where reading stands after `count` records, if all of them can be read. */
  ghost function After(data: bytes, pos: nat, count: nat): (r: Option<nat>)
    requires pos <= |data|
    ensures r.Some? ==> r.value <= |data|
    decreases count
  {
    if count == 0 then Some(pos)
    else match UnitFrom(data, pos)
      case BadUnit => None
      case GotUnit(_, next) => After(data, next, count - 1)
  }

  /** A section that does not panic is read to where its records end. */
  lemma {:induction false} SectionEnds(data: bytes, pos: nat, count: nat, g: Group)
    requires pos <= |data| && g.Group?
    ensures var s := SectionFrom(data, pos, count, g);
      !Panics(s) ==> After(data, pos, count) == if s.GotSection? then Some(s.next) else None
    decreases count
  {
    hide UnitFrom, Join;
    if count > 0 && UnitFrom(data, pos).GotUnit? {
      var r := UnitFrom(data, pos);
      if !Join(g, r.u).Crash? {
        SectionEnds(data, r.next, count - 1, Join(g, r.u));
      }
    }
  }

  /** The last RRset of a section has the type of the last record, and data exactly if that has some. */
  lemma {:induction false} LastTells(data: bytes, pos: nat, count: nat, done: seq<RRset>, l: RRset, prev: RRset)
    requires pos <= |data| && Together(l, prev) && (l.rdatas == [] <==> prev.rdatas == [])
    ensures var s := SectionFrom(data, pos, count, Group(done, Some(l)));
      s.GotSection? && s.g.Group? ==>
        && s.g.last.Some? && (count > 0 ==> Record(data, pos, count - 1).GotUnit?)
        && var u := if count == 0 then prev else Record(data, pos, count - 1).u;
        && s.g.last.value.typ == u.typ && (s.g.last.value.rdatas == [] <==> u.rdatas == [])
    decreases count
  {
    hide UnitFrom, SectionFrom, Together, Join;
    SectionStep(data, pos, count, Group(done, Some(l)));
    if count == 0 {
      TogetherType(l, prev);
    } else if UnitFrom(data, pos).GotUnit? {
      var r := UnitFrom(data, pos);
      UnitValid(data, pos);
      JoinIs(done, l, r.u);
      JoinData(done, l, r.u);
      var j := Join(Group(done, Some(l)), r.u);
      if j.Crash? {
        SectionCrashed(data, r.next, count - 1);
      } else {
        LastTells(data, r.next, count - 1, j.done, j.last.value, r.u);
      }
    }
  }

  lemma TogetherType(x: RRset, y: RRset)
    requires Together(x, y)
    ensures x.typ == y.typ
  {
  }

  lemma JoinData(done: seq<RRset>, l: RRset, u: RRset)
    ensures var j := Join(Group(done, Some(l)), u);
      j.Group? && j.last.Some? ==> (j.last.value.rdatas == [] <==> u.rdatas == [])
  {
  }

  /** The last of `count` records is a TSIG record without data. */
  ghost predicate EndsBare(data: bytes, pos: nat, count: nat)
    requires pos <= |data|
  {
    && count > 0 && Record(data, pos, count - 1).GotUnit?
    && Record(data, pos, count - 1).u.typ == R.RR_TSIG && Record(data, pos, count - 1).u.rdatas == []
  }

  /** A section that does not panic sets aside a TSIG RRset without data exactly when it ends in such a record. */
  lemma TsigMissed(data: bytes, pos: nat, count: nat)
    requires pos <= |data|
    ensures var s := SectionFrom(data, pos, count, Group([], None));
      s.GotSection? && s.g.Group? ==> (TsigMissing(s.g, ADDITIONAL) <==> EndsBare(data, pos, count))
  {
    hide UnitFrom, SectionFrom, Together;
    SectionStep(data, pos, count, Group([], None));
    if count > 0 && UnitFrom(data, pos).GotUnit? {
      var r := UnitFrom(data, pos);
      UnitValid(data, pos);
      TogetherSelf(r.u);
      LastTells(data, r.next, count - 1, [], r.u, r.u);
    }
  }

  /**
    * Some section, from number `i` on, holds a clash, or the additional one ends in a bare TSIG
    * record, and everything before that can be read.
    */
  ghost predicate ClashFrom(data: bytes, pos: nat, h: Header, i: nat)
    requires pos <= |data| && i <= SECTIONS
    decreases SECTIONS - i
  {
    i < SECTIONS &&
    ( || HasClash(data, pos, Count(h, i))
      || (After(data, pos, Count(h, i)).Some? && i == ADDITIONAL && EndsBare(data, pos, Count(h, i)))
      || (After(data, pos, Count(h, i)).Some? && ClashFrom(data, After(data, pos, Count(h, i)).value, h, i + 1)))
  }

  lemma {:induction false} SectionsCrash(data: bytes, pos: nat, m: Message, i: nat)
    requires pos <= |data| && i <= SECTIONS
    ensures SectionsFrom(data, pos, m, i).CrashMessage? <==> ClashFrom(data, pos, m.header, i)
    decreases SECTIONS - i
  {
    hide SectionFrom, Clash, After, Count, PutSection, EndsBare;
    if i < SECTIONS {
      var count, g0 := Count(m.header, i), Group([], None);
      SectionCrash(data, pos, count);
      SectionEnds(data, pos, count, g0);
      TsigMissed(data, pos, count);
      var s := SectionFrom(data, pos, count, g0);
      if s.GotSection? && !s.g.Crash? && !TsigMissing(s.g, i) {
        var m' := PutSection(m, s.g, i);
        PutsHeader(m, s.g, i);
        SectionsCrash(data, s.next, m', i + 1);
      }
    }
  }

  lemma PutsHeader(m: Message, g: Group, i: nat)
    requires g.Group?
    ensures PutSection(m, g, i).header == m.header
  {
  }

  /** Where the sections begin: behind the header, and behind the question when there is one. */
  ghost function Sections(data: bytes): (r: Option<(Header, nat)>)
    ensures r.Some? ==> r.value.1 <= |data|
  {
    match HeaderFrom(data, 0)
    case None => None
    case Some((h, p)) =>
      HeaderBound(data, 0);
      if h.qd != 1 then Some((h, p))
      else match QuestionFrom(data, p)
        case None => None
        case Some((_, p')) => Some((h, p'))
  }

  /** Parsing panics exactly when the header and the question can be read and a section is such a one. */
  lemma MessageCrashes(data: bytes)
    ensures FromWire(data, 0) == CrashMessage <==>
            Sections(data).Some? && ClashFrom(data, Sections(data).value.1, Sections(data).value.0, 0)
  {
    hide HeaderFrom, QuestionFrom, SectionsFrom, ClashFrom;
    if HeaderFrom(data, 0).Some? {
      var (h, p) := HeaderFrom(data, 0).value;
      HeaderBound(data, 0);
      if h.qd != 1 {
        SectionsCrash(data, p, Message(h, None, [], None, None), 0);
      } else if QuestionFrom(data, p).Some? {
        var (q, p') := QuestionFrom(data, p).value;
        SectionsCrash(data, p', Message(h, Some(q), [], None, None), 0);
      }
    }
  }

  // ----- A message that makes parsing panic -----

  /** The root name, type A, class IN, no time to live, no data. */
  const BARE_RECORD: bytes := [0, 0, 1, 0, 1, 0, 0, 0, 0, 0, 0]

  lemma BareRead(data: bytes, p: nat)
    requires p + 11 <= |data| && data[p..p + 11] == BARE_RECORD
    ensures UnitFrom(data, p) == GotUnit(RRset(FromLabels([]), 1, 1, 0, []), p + 11)
  {
    assert forall i :: 0 <= i < 11 ==> data[p + i] == BARE_RECORD[i];
    assert data[p] == 0 && data[p + 1] == 0 && data[p + 2] == 1 && data[p + 3] == 0 && data[p + 4] == 1;
    assert data[p + 5] == 0 && data[p + 6] == 0 && data[p + 7] == 0 && data[p + 8] == 0;
    assert data[p + 9] == 0 && data[p + 10] == 0;
    assert DecodeName(data, p) == Ok([], p + 1);
    assert R.RdataFrom(data, p + 9, 1) == R.NoData(p + 11);
  }

  /** A message of 34 octets that panics, with any identification number: two bare answers. */
  method PanickingMessage(id: uint16) returns (d: bytes)
    ensures |d| == 34 && FromWire(d, 0) == CrashMessage
  {
    hide UnitFrom, HeaderFrom, FromWire, HeaderOut, Masked;
    var h := Header(id, 0, 0, 0, 0, 2, 0, 0);
    HeaderSize(h);
    d := HeaderOut(h) + BARE_RECORD + BARE_RECORD;
    assert d[..12] == HeaderOut(h) && d[12..23] == BARE_RECORD && d[23..34] == BARE_RECORD;
    HeaderBack(d, h);
    MaskedCounts(h);
    BareRead(d, 12);
    BareRead(d, 23);
    UnitValid(d, 12);
    TogetherSelf(UnitFrom(d, 12).u);
    assert Record(d, 12, 0) == UnitFrom(d, 12) && Record(d, 12, 1) == UnitFrom(d, 23);
    assert Clash(d, 12, 1);
    MessageCrashes(d);
  }

  lemma MaskedCounts(h: Header)
    ensures Masked(h).qd == h.qd && Masked(h).an == h.an && Masked(h).ns == h.ns && Masked(h).ar == h.ar
  {
  }

  /** The root name, type TSIG, class ANY, no time to live, no data. */
  const BARE_TSIG: bytes := [0, 0, 250, 0, 255, 0, 0, 0, 0, 0, 0]

  lemma BareTsigRead(data: bytes, p: nat)
    requires p + 11 <= |data| && data[p..p + 11] == BARE_TSIG
    ensures UnitFrom(data, p) == GotUnit(RRset(FromLabels([]), R.RR_TSIG, 255, 0, []), p + 11)
  {
    assert forall i :: 0 <= i < 11 ==> data[p + i] == BARE_TSIG[i];
    assert data[p] == 0 && data[p + 1] == 0 && data[p + 2] == 250 && data[p + 3] == 0 && data[p + 4] == 255;
    assert data[p + 5] == 0 && data[p + 6] == 0 && data[p + 7] == 0 && data[p + 8] == 0;
    assert data[p + 9] == 0 && data[p + 10] == 0;
    assert DecodeName(data, p) == Ok([], p + 1);
    assert R.RdataFrom(data, p + 9, 250) == R.NoData(p + 11);
  }

  /** A message of 23 octets that panics, with any identification number: one bare TSIG record. */
  method PanickingTsig(id: uint16) returns (d: bytes)
    ensures |d| == 23 && FromWire(d, 0) == CrashMessage
  {
    hide UnitFrom, HeaderFrom, FromWire, HeaderOut, Masked;
    var h := Header(id, 0, 0, 0, 0, 0, 0, 1);
    HeaderSize(h);
    d := HeaderOut(h) + BARE_TSIG;
    assert d[..12] == HeaderOut(h) && d[12..23] == BARE_TSIG;
    HeaderBack(d, h);
    MaskedCounts(h);
    BareTsigRead(d, 12);
    assert Record(d, 12, 0) == UnitFrom(d, 12);
    assert After(d, 12, 0) == Some(12) && After(d, 12, 1) == Some(23);
    assert EndsBare(d, 12, 1) && ClashFrom(d, 12, Masked(h), 2);
    assert ClashFrom(d, 12, Masked(h), 1) && ClashFrom(d, 12, Masked(h), 0);
    MessageCrashes(d);
  }
}
