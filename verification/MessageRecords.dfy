/**
  * What a parsed message holds of the records that were read: every piece of data, and every
  * record but those without data that the next record of their name and type takes the place of.
  */
module MessageRecords {
  import opened Octets
  import opened Options
  import opened Names
  import opened NameWire
  import R = Rdata
  import opened Messages
  import opened MessageCrash

  // ----- The records of a section, one by one -----

  /** The records that begin at `pos`, read without joining any. */
  ghost function RecordsAt(data: bytes, pos: nat, count: nat): Option<seq<RRset>>
    requires pos <= |data|
    decreases count
  {
    if count == 0 then Some([])
    else match UnitFrom(data, pos)
      case BadUnit => None
      case GotUnit(u, next) =>
        match RecordsAt(data, next, count - 1)
        case None => None
        case Some(us) => Some([u] + us)
  }

  /** The first of the neighbours of one name and type that record `i` belongs to. */
  ghost function Leader(us: seq<RRset>, i: nat): (j: nat)
    requires i < |us|
    ensures j <= i
  {
    if i == 0 || !Together(us[i - 1], us[i]) then i else Leader(us, i - 1)
  }

  /** The records with owner, class and time to live of their leaders. */
  ghost function Led(us: seq<RRset>): seq<RRset> {
    seq(|us|, i requires 0 <= i < |us| => us[Leader(us, i)].(rdatas := us[i].rdatas))
  }

  /** No record without data is followed by one of its name and type. */
  ghost predicate Standing(us: seq<RRset>) {
    forall i :: 0 < i < |us| && Together(us[i - 1], us[i]) ==> us[i - 1].rdatas != []
  }

  /** All pieces of data, each with the type of its record. */
  ghost function DataOf(sets: seq<RRset>): seq<(uint16, seq<R.Field>)> {
    if sets == [] then []
    else
      var s := sets[|sets| - 1];
      DataOf(sets[..|sets| - 1]) + seq(|s.rdatas|, i requires 0 <= i < |s.rdatas| => (s.typ, s.rdatas[i]))
  }

  ghost predicate Unjoined(sec: seq<RRset>) {
    forall i :: 0 < i < |sec| ==> !Together(sec[i - 1], sec[i])
  }

  /**
    * A section holds the records `us`: their data in order, in RRsets of which no neighbours
    * belong together; and the records themselves exactly if none is displaced.
    */
  ghost predicate Holds(sec: seq<RRset>, us: seq<RRset>) {
    && DataOf(sec) == DataOf(us) && Unjoined(sec)
    && (if Standing(us) then SectionUnits(sec) == Led(us) else |SectionUnits(sec)| < |us|)
  }

  ghost predicate Records(us: seq<RRset>) {
    forall i :: 0 <= i < |us| ==> Valid(us[i].name) && |us[i].rdatas| <= 1
  }

  /** What joining has made of the records so far. */
  ghost predicate Joined(g: Group, us: seq<RRset>) {
    && g.Group? && (us == [] <==> g.last.None?) && (us == [] ==> g.done == []) && Holds(Whole(g), us)
    && (us != [] ==> LastIs(g.last.value, us))
  }

  ghost predicate LastIs(l: RRset, us: seq<RRset>)
    requires us != []
  {
    var n := |us| - 1;
    l == us[Leader(us, n)].(rdatas := l.rdatas) && Together(l, us[n]) && (l.rdatas == [] <==> us[n].rdatas == [])
  }

  lemma {:induction false} LeaderKept(us: seq<RRset>, u: RRset, i: nat)
    requires i < |us|
    ensures Leader(us + [u], i) == Leader(us, i)
  {
    hide Together;
    if i > 0 {
      LeaderKept(us, u, i - 1);
    }
  }

  lemma LedAdd(us: seq<RRset>, u: RRset)
    ensures |us| < |us + [u]| && |Led(us)| == |us|
    ensures Led(us + [u]) == Led(us) + [(us + [u])[Leader(us + [u], |us|)].(rdatas := u.rdatas)]
  {
    hide Together, Leader;
    forall i | 0 <= i < |us| ensures Leader(us + [u], i) == Leader(us, i) {
      LeaderKept(us, u, i);
    }
  }

  lemma StandingAdd(us: seq<RRset>, u: RRset)
    requires us != []
    ensures Standing(us + [u]) <==>
      Standing(us) && (Together(us[|us| - 1], u) ==> us[|us| - 1].rdatas != [])
  {
    hide Together;
    var vs := us + [u];
    assert vs[|us| - 1] == us[|us| - 1] && vs[|us|] == u;
    if Standing(vs) {
      forall i | 0 < i < |us| && Together(us[i - 1], us[i]) ensures us[i - 1].rdatas != [] {
        assert vs[i - 1] == us[i - 1] && vs[i] == us[i];
      }
    }
  }

  lemma DataAdd(sets: seq<RRset>, s: RRset)
    ensures DataOf(sets + [s]) ==
      DataOf(sets) + seq(|s.rdatas|, i requires 0 <= i < |s.rdatas| => (s.typ, s.rdatas[i]))
  {
    assert (sets + [s])[..|sets|] == sets;
  }

  lemma UnitOne(u: RRset)
    requires |u.rdatas| <= 1
    ensures Units(u) == [u]
  {
    if u.rdatas != [] {
      assert u.rdatas == [u.rdatas[0]];
    }
  }

  lemma UnitsAdd(l: RRset, d: seq<R.Field>)
    ensures var l' := l.(rdatas := l.rdatas + [d]);
      if l.rdatas == [] then |Units(l')| == 1 == |Units(l)| else Units(l') == Units(l) + [l.(rdatas := [d])]
  {
  }

  /** A record that starts an RRset of its own. */
  lemma HoldsNew(sec: seq<RRset>, us: seq<RRset>, u: RRset)
    requires Holds(sec, us) && us != [] && sec != [] && !Together(us[|us| - 1], u) && !Together(sec[|sec| - 1], u)
    requires |u.rdatas| <= 1
    ensures Holds(sec + [u], us + [u])
  {
    hide Together, Leader, Standing, Led, SectionUnits, DataOf, Units, Unjoined;
    LeaderAlone(us, u);
    LedAdd(us, u);
    StandingAdd(us, u);
    DataAdd(us, u);
    DataAdd(sec, u);
    SectionUnitsAppend(sec, u);
    UnitOne(u);
    UnjoinedAdd(sec, u);
    assert (us + [u])[|us|].(rdatas := u.rdatas) == u;
  }

  lemma LastNew(us: seq<RRset>, u: RRset)
    requires us != [] && !Together(us[|us| - 1], u) && Valid(u.name)
    ensures LastIs(u, us + [u])
  {
    hide Together;
    LeaderAlone(us, u);
    TogetherSelf(u);
  }

  lemma NewSet(done: seq<RRset>, l: RRset, us: seq<RRset>, u: RRset)
    requires Joined(Group(done, Some(l)), us) && us != [] && !Together(l, u) && Valid(u.name) && |u.rdatas| <= 1
    ensures Joined(Group(done + [l], Some(u)), us + [u])
  {
    hide Together, Leader, Holds;
    TogetherTrans(l, us[|us| - 1], u);
    HoldsNew(done + [l], us, u);
    hide LastIs;
    LastNew(us, u);
  }

  lemma LeaderAlone(us: seq<RRset>, u: RRset)
    requires us != [] && !Together(us[|us| - 1], u)
    ensures Leader(us + [u], |us|) == |us|
  {
  }

  lemma LeaderSame(us: seq<RRset>, u: RRset)
    requires us != [] && Together(us[|us| - 1], u)
    ensures Leader(us + [u], |us|) == Leader(us, |us| - 1)
  {
    LeaderKept(us, u, |us| - 1);
  }

  lemma UnjoinedAdd(sec: seq<RRset>, u: RRset)
    requires Unjoined(sec) && (sec != [] ==> !Together(sec[|sec| - 1], u))
    ensures Unjoined(sec + [u])
  {
  }

  lemma UnjoinedSame(done: seq<RRset>, l: RRset, l': RRset)
    requires Unjoined(done + [l]) && l'.name == l.name && l'.typ == l.typ
    ensures Unjoined(done + [l'])
  {
    var sec, sec' := done + [l], done + [l'];
    forall i | 0 < i < |sec'| ensures !Together(sec'[i - 1], sec'[i]) {
      assert !Together(sec[i - 1], sec[i]);
    }
  }

  lemma DataMore(done: seq<RRset>, l: RRset, d: seq<R.Field>)
    ensures DataOf(done + [l.(rdatas := l.rdatas + [d])]) == DataOf(done + [l]) + [(l.typ, d)]
  {
    hide DataOf;
    DataAdd(done, l);
    DataAdd(done, l.(rdatas := l.rdatas + [d]));
  }

  lemma UnitsMore(done: seq<RRset>, l: RRset, d: seq<R.Field>)
    ensures var us, us' := SectionUnits(done + [l]), SectionUnits(done + [l.(rdatas := l.rdatas + [d])]);
      if l.rdatas == [] then |us'| == |us| else us' == us + [l.(rdatas := [d])]
  {
    hide SectionUnits, Units;
    SectionUnitsAppend(done, l);
    SectionUnitsAppend(done, l.(rdatas := l.rdatas + [d]));
    UnitsAdd(l, d);
  }

  /** A record whose data goes to the last RRset. */
  lemma MoreData(done: seq<RRset>, l: RRset, us: seq<RRset>, u: RRset)
    requires Joined(Group(done, Some(l)), us) && us != [] && Together(l, u) && |u.rdatas| == 1
    ensures Joined(Group(done, Some(l.(rdatas := l.rdatas + [u.rdatas[0]]))), us + [u])
  {
    hide Together, Leader, Standing, Led, SectionUnits, DataOf, Units, Unjoined;
    var d, n := u.rdatas[0], |us| - 1;
    var l' := l.(rdatas := l.rdatas + [d]);
    TogetherTrans(l, us[n], u);
    TogetherType(l, u);
    TogetherMore(l, u, l'.rdatas);
    assert (us + [u])[|us|] == u;
    LeaderSame(us, u);
    LedAdd(us, u);
    StandingAdd(us, u);
    DataAdd(us, u);
    DataMore(done, l, d);
    UnitsMore(done, l, d);
    UnjoinedSame(done, l, l');
    assert seq(|u.rdatas|, i requires 0 <= i < |u.rdatas| => (u.typ, u.rdatas[i])) == [(u.typ, d)];
    assert u.rdatas == [d];
  }

  lemma TogetherMore(l: RRset, u: RRset, ds: seq<seq<R.Field>>)
    requires Together(l, u)
    ensures Together(l.(rdatas := ds), u)
  {
  }

  lemma JoinedFirst(u: RRset)
    requires Valid(u.name) && |u.rdatas| <= 1
    ensures Joined(Group([], Some(u)), [u])
  {
    hide SameName;
    TogetherSelf(u);
    UnitOne(u);
    assert [] + [u] == [u] && [u][1..] == [] && [u][..0] == [];
    assert Leader([u], 0) == 0;
    assert Led([u]) == [u];
    assert SectionUnits([u]) == [u];
  }

  lemma JoinedNone()
    ensures Joined(Group([], None), [])
  {
    assert Led([]) == [];
  }

  /** One more record. */
  lemma JoinedNext(g: Group, us: seq<RRset>, u: RRset)
    requires Joined(g, us) && Valid(u.name) && |u.rdatas| <= 1 && !Join(g, u).Crash?
    ensures Joined(Join(g, u), us + [u])
  {
    hide Together, Holds, LastIs;
    if us == [] {
      JoinedFirst(u);
      assert us + [u] == [u];
    } else if !Together(g.last.value, u) {
      NewSet(g.done, g.last.value, us, u);
    } else {
      MoreData(g.done, g.last.value, us, u);
    }
  }

  lemma {:induction false} SectionJoined(data: bytes, pos: nat, count: nat, g: Group, us: seq<RRset>)
    requires pos <= |data| && Joined(g, us)
    ensures var s := SectionFrom(data, pos, count, g);
      s.GotSection? && s.g.Group? ==>
        && RecordsAt(data, pos, count).Some? && Joined(s.g, us + RecordsAt(data, pos, count).value)
        && After(data, pos, count) == Some(s.next)
    decreases count
  {
    hide UnitFrom, SectionFrom, Join, Joined;
    JoinedGroup(g, us);
    SectionStep(data, pos, count, g);
    if count == 0 {
      assert us + [] == us;
    } else if UnitFrom(data, pos).GotUnit? {
      var r := UnitFrom(data, pos);
      UnitValid(data, pos);
      if Join(g, r.u).Crash? {
        SectionCrashed(data, r.next, count - 1);
      } else {
        JoinedNext(g, us, r.u);
        SectionJoined(data, r.next, count - 1, Join(g, r.u), us + [r.u]);
        if RecordsAt(data, r.next, count - 1).Some? {
          var rest := RecordsAt(data, r.next, count - 1).value;
          assert us + [r.u] + rest == us + ([r.u] + rest);
        }
      }
    }
  }

  lemma JoinedGroup(g: Group, us: seq<RRset>)
    requires Joined(g, us)
    ensures g.Group?
  {
  }

  // ----- Whole messages -----

  /** Where section `i` begins. */
  ghost function SectionAt(data: bytes, h: Header, pos: nat, i: nat): (r: Option<nat>)
    requires pos <= |data|
    ensures r.Some? ==> r.value <= |data|
  {
    if i == 0 then Some(pos)
    else match SectionAt(data, h, pos, i - 1)
      case None => None
      case Some(p) => After(data, p, Count(h, i - 1))
  }

  /** The records of section `i`, if all up to them can be read. */
  ghost function RecordsOf(data: bytes, h: Header, pos: nat, i: nat): Option<seq<RRset>>
    requires pos <= |data|
  {
    match SectionAt(data, h, pos, i)
    case None => None
    case Some(p) => RecordsAt(data, p, Count(h, i))
  }

  /** The additional section, and what is set aside of it by the type of its last record. */
  ghost predicate HoldsLast(m: Message, us: seq<RRset>)
    requires |m.sections| == SECTIONS
  {
    var sec, typ := m.sections[ADDITIONAL], if us == [] then 0 else us[|us| - 1].typ;
    && (m.edns.Some? <==> typ == 41) && (m.tsig.Some? <==> typ == 250)
    && (m.edns.Some? ==> Holds(sec + [m.edns.value], us))
    && (m.tsig.Some? ==> exists s :: FirstOf(m.tsig.value, s) && Holds(sec + [s], us))
    && (m.edns.None? && m.tsig.None? ==> Holds(sec, us))
  }

  /** `t` is what is kept of `s`: all but the pieces of data after the first. */
  ghost predicate FirstOf(t: RRset, s: RRset) {
    s.rdatas != [] && t == s.(rdatas := [s.rdatas[0]])
  }

  /** One section of a message that is read to its end. */
  lemma SectionPut(data: bytes, pos: nat, m: Message, i: nat) returns (g: Group, next: nat, us: seq<RRset>)
    requires pos <= |data| && i < SECTIONS && SectionsFrom(data, pos, m, i).GotMessage?
    ensures RecordsAt(data, pos, Count(m.header, i)) == Some(us) && After(data, pos, Count(m.header, i)) == Some(next)
    ensures g.Group? && Joined(g, us) && !TsigMissing(g, i) && next <= |data|
    ensures SectionsFrom(data, pos, m, i) == SectionsFrom(data, next, PutSection(m, g, i), i + 1)
  {
    hide SectionFrom, RecordsAt, After, Joined, Count, PutSection;
    var s := SectionFrom(data, pos, Count(m.header, i), Group([], None));
    JoinedNone();
    SectionJoined(data, pos, Count(m.header, i), Group([], None), []);
    g, next, us := s.g, s.next, RecordsAt(data, pos, Count(m.header, i)).value;
    assert [] + us == us;
    JoinedGroup(g, us);
  }

  lemma PutPlain(m: Message, g: Group, us: seq<RRset>, i: nat)
    requires Joined(g, us) && i < ADDITIONAL
    ensures var m' := PutSection(m, g, i);
      && m' == m.(sections := m'.sections) && |m'.sections| == |m.sections| + 1
      && m'.sections[..|m.sections|] == m.sections && Holds(m'.sections[|m.sections|], us)
  {
    hide Holds;
  }

  lemma PutLast(m: Message, g: Group, us: seq<RRset>)
    requires Joined(g, us) && |m.sections| == ADDITIONAL && m.edns == None && m.tsig == None
      && !TsigMissing(g, ADDITIONAL)
    ensures var m' := PutSection(m, g, ADDITIONAL);
      && m'.header == m.header && m'.question == m.question && |m'.sections| == SECTIONS
      && m'.sections[..ADDITIONAL] == m.sections && HoldsLast(m', us)
  {
    hide Holds, Together, Leader;
    var m' := PutSection(m, g, ADDITIONAL);
    if us != [] {
      TogetherType(g.last.value, us[|us| - 1]);
      if g.last.value.typ == R.RR_TSIG {
        assert FirstOf(m'.tsig.value, g.last.value);
      }
    }
  }

  /** What a message holds of the records read for it. */
  ghost predicate HoldsAll(data: bytes, pos: nat, m: Message)
    requires pos <= |data|
  {
    && |m.sections| == SECTIONS
    && (forall i :: 0 <= i < SECTIONS ==> RecordsOf(data, m.header, pos, i).Some?)
    && Holds(m.sections[0], RecordsOf(data, m.header, pos, 0).value)
    && Holds(m.sections[1], RecordsOf(data, m.header, pos, 1).value)
    && HoldsLast(m, RecordsOf(data, m.header, pos, 2).value)
  }

  lemma SectionsHold(data: bytes, pos: nat, h: Header, q: Option<Question>, m: Message)
    requires pos <= |data| && SectionsFrom(data, pos, Message(h, q, [], None, None), 0) == GotMessage(m)
    ensures m.header == h && m.question == q && HoldsAll(data, pos, m)
  {
    hide Holds, HoldsLast, Joined, RecordsAt, After, PutSection, TsigMissing, Count, SectionsFrom;
    var m0 := Message(h, q, [], None, None);
    var g0, p1, us0 := SectionPut(data, pos, m0, 0);
    PutPlain(m0, g0, us0, 0);
    var m1 := PutSection(m0, g0, 0);
    var g1, p2, us1 := SectionPut(data, p1, m1, 1);
    PutPlain(m1, g1, us1, 1);
    var m2 := PutSection(m1, g1, 1);
    var g2, p3, us2 := SectionPut(data, p2, m2, 2);
    PutLast(m2, g2, us2);
    SectionsDone(data, p3, PutSection(m2, g2, 2));
    SectionStarts(data, h, pos, p1, p2);
    assert m.sections[..2][0] == m1.sections[0] && m.sections[..2][1] == m2.sections[1];
  }

  lemma SectionsDone(data: bytes, pos: nat, m: Message)
    requires pos <= |data|
    ensures SectionsFrom(data, pos, m, SECTIONS) == GotMessage(m)
  {
  }

  lemma SectionStarts(data: bytes, h: Header, pos: nat, p1: nat, p2: nat)
    requires pos <= |data| && After(data, pos, Count(h, 0)) == Some(p1) && p1 <= |data|
    requires After(data, p1, Count(h, 1)) == Some(p2) && p2 <= |data|
    ensures RecordsOf(data, h, pos, 0) == RecordsAt(data, pos, Count(h, 0))
    ensures RecordsOf(data, h, pos, 1) == RecordsAt(data, p1, Count(h, 1))
    ensures RecordsOf(data, h, pos, 2) == RecordsAt(data, p2, Count(h, 2))
  {
    hide After, RecordsAt;
    assert SectionAt(data, h, pos, 0) == Some(pos);
    assert SectionAt(data, h, pos, 1) == Some(p1);
    assert SectionAt(data, h, pos, 2) == Some(p2);
  }

  /**
    * A message that is parsed holds what was read: the header, a question if and only if one is
    * announced, and of each section the records, those of the additional section being set
    * aside exactly by the type of the last of them.
    */
  lemma NothingLost(data: bytes)
    requires FromWire(data, 0).GotMessage?
    ensures var m := FromWire(data, 0).m;
      && Sections(data).Some? && m.header == Sections(data).value.0 && (m.question.Some? <==> m.header.qd == 1)
      && HoldsAll(data, Sections(data).value.1, m)
  {
    hide HeaderFrom, QuestionFrom, SectionsFrom, HoldsAll;
    var (h, p) := HeaderFrom(data, 0).value;
    HeaderBound(data, 0);
    if h.qd != 1 {
      SectionsHold(data, p, h, None, FromWire(data, 0).m);
    } else {
      var (q, p') := QuestionFrom(data, p).value;
      SectionsHold(data, p', h, Some(q), FromWire(data, 0).m);
    }
  }

  // ----- Two messages -----

  /** The root name, type OPT, a UDP size of 4096, no flags, no options. */
  const BARE_OPT: bytes := [0, 0, 41, 16, 0, 0, 0, 0, 0, 0, 0]

  /** The root name, type A, class IN, no time to live, an address. */
  const ADDRESS: bytes := [0, 0, 1, 0, 1, 0, 0, 0, 0, 0, 4, 192, 0, 2, 1]

  lemma OptRead(data: bytes, p: nat)
    requires p + 11 <= |data| && data[p..p + 11] == BARE_OPT
    ensures UnitFrom(data, p) == GotUnit(RRset(FromLabels([]), 41, 4096, 0, []), p + 11)
  {
    assert forall i :: 0 <= i < 11 ==> data[p + i] == BARE_OPT[i];
    assert data[p] == 0 && data[p + 1] == 0 && data[p + 2] == 41 && data[p + 3] == 16 && data[p + 4] == 0;
    assert data[p + 5] == 0 && data[p + 6] == 0 && data[p + 7] == 0 && data[p + 8] == 0;
    assert data[p + 9] == 0 && data[p + 10] == 0;
    assert DecodeName(data, p) == Ok([], p + 1);
    assert R.RdataFrom(data, p + 9, 41) == R.NoData(p + 11);
  }

  lemma AddressRead(data: bytes, p: nat)
    requires p + 15 <= |data| && data[p..p + 15] == ADDRESS
    ensures var r := UnitFrom(data, p);
      r.GotUnit? && r.next == p + 15 && r.u.name == FromLabels([]) && r.u.typ == 1 && |r.u.rdatas| == 1
  {
    assert forall i :: 0 <= i < 15 ==> data[p + i] == ADDRESS[i];
    assert data[p] == 0 && data[p + 1] == 0 && data[p + 2] == 1 && data[p + 3] == 0 && data[p + 4] == 1;
    assert data[p + 5] == 0 && data[p + 6] == 0 && data[p + 7] == 0 && data[p + 8] == 0;
    assert data[p + 9] == 0 && data[p + 10] == 4;
    assert DecodeName(data, p) == Ok([], p + 1);
    assert R.FieldFrom(data, p + 11, R.CIPv4, 4) == R.Got(R.BytesField(data[p + 11..p + 15]), p + 15, 0);
    assert [R.CIPv4][1..] == [] && R.FieldsFrom(data, p + 15, [], 0) == R.Got([], p + 15, 0);
    assert R.FieldsFrom(data, p + 11, [R.CIPv4], 4).Got?;
    assert R.RdataFrom(data, p + 9, 1).GotData? && R.RdataFrom(data, p + 9, 1).next == p + 15;
  }

  lemma EmptySection(data: bytes, pos: nat, m: Message, i: nat)
    requires pos <= |data| && i < SECTIONS && Count(m.header, i) == 0
    ensures SectionsFrom(data, pos, m, i) == SectionsFrom(data, pos, m.(sections := m.sections + [[]]), i + 1)
  {
  }

  lemma FlatHeader(d: bytes, an: byte, ar: byte)
    requires |d| >= 12 && d[..12] == [0, 7, 0, 0, 0, 0, 0, an, 0, 0, 0, ar]
    ensures HeaderFrom(d, 0) == Some((Header(7, 0, 0, 0, 0, an, 0, ar), 12))
  {
    var h := [0, 7, 0, 0, 0, 0, 0, an, 0, 0, 0, ar];
    assert forall i :: 0 <= i < 12 ==> d[i] == h[i];
    assert d[0] == 0 && d[1] == 7 && d[2] == 0 && d[3] == 0 && d[4] == 0 && d[5] == 0 && d[6] == 0 && d[7] == an;
    assert d[8] == 0 && d[9] == 0 && d[10] == 0 && d[11] == ar;
  }

  /** A message of 23 octets with an OPT record. */
  const OPT_MESSAGE: bytes := [0, 7, 0, 0, 0, 0, 0, 0, 0, 0, 0, 1] + BARE_OPT

  /** The record is set aside as EDNS, and no section has a record. */
  lemma OptSetAside()
    ensures FromWire(OPT_MESSAGE, 0).GotMessage?
    ensures FromWire(OPT_MESSAGE, 0).m.edns == Some(RRset(FromLabels([]), 41, 4096, 0, []))
    ensures FromWire(OPT_MESSAGE, 0).m.sections == [[], [], []]
  {
    hide UnitFrom, HeaderFrom, SectionsFrom;
    var d := OPT_MESSAGE;
    assert d[..12] == [0, 7, 0, 0, 0, 0, 0, 0, 0, 0, 0, 1] && d[12..23] == BARE_OPT;
    FlatHeader(d, 0, 1);
    OptRead(d, 12);
    var none: seq<RRset>, m := [], Message(Header(7, 0, 0, 0, 0, 0, 0, 1), None, [], None, None);
    EmptySection(d, 12, m, 0);
    assert m.sections + [none] == [none] && [none] + [none] == [none, none];
    EmptySection(d, 12, m.(sections := [none]), 1);
    OneSet(d, 12, m.(sections := [none, none]));
    assert [none, none] + [none] == [none, none, none];
    assert FromWire(d, 0) == SectionsFrom(d, 12, m, 0);
  }

  lemma OneSet(data: bytes, pos: nat, m: Message)
    requires pos <= |data| && Count(m.header, ADDITIONAL) == 1 && UnitFrom(data, pos).GotUnit?
    requires UnitFrom(data, pos).u.typ == R.RR_OPT
    ensures SectionsFrom(data, pos, m, ADDITIONAL) ==
      GotMessage(m.(sections := m.sections + [[]], edns := Some(UnitFrom(data, pos).u)))
  {
    hide UnitFrom;
    var u, next := UnitFrom(data, pos).u, UnitFrom(data, pos).next;
    SectionStep(data, pos, 1, Group([], None));
    SectionStep(data, next, 0, Group([], Some(u)));
    SectionsDone(data, next, PutSection(m, Group([], Some(u)), ADDITIONAL));
  }

  /** A message of 38 octets with two answers, one without data and one with. */
  const BARE_FIRST: bytes := [0, 7, 0, 0, 0, 0, 0, 2, 0, 0, 0, 0] + BARE_RECORD + ADDRESS

  /** The first of them is gone. */
  lemma BareDisplaced()
    ensures FromWire(BARE_FIRST, 0).GotMessage?
    ensures FromWire(BARE_FIRST, 0).m.header.an == 2 && |FromWire(BARE_FIRST, 0).m.sections| == 3
    ensures |SectionUnits(FromWire(BARE_FIRST, 0).m.sections[0])| == 1
  {
    hide UnitFrom, HeaderFrom, SectionsFrom, SectionFrom, Together, FromLabels, SectionUnits, Units;
    var d := BARE_FIRST;
    assert d[..12] == [0, 7, 0, 0, 0, 0, 0, 2, 0, 0, 0, 0] && d[12..23] == BARE_RECORD && d[23..38] == ADDRESS;
    FlatHeader(d, 2, 0);
    BareRead(d, 12);
    AddressRead(d, 23);
    var m := Message(Header(7, 0, 0, 0, 0, 2, 0, 0), None, [], None, None);
    var all := TwoRecords(d, 12, m);
    var m1 := m.(sections := [[all]]);
    EmptySection(d, 38, m1, 1);
    EmptySection(d, 38, m1.(sections := m1.sections + [[]]), 2);
    SectionsDone(d, 38, m1.(sections := m1.sections + [[]] + [[]]));
    assert FromWire(d, 0) == SectionsFrom(d, 12, m, 0);
    UnitOne(all);
    SectionUnitsAppend([], all);
    NoUnits();
    assert [] + [all] == [all];
  }

  lemma NoUnits()
    ensures SectionUnits([]) == []
  {
  }

  lemma TwoRecords(data: bytes, pos: nat, m: Message) returns (all: RRset)
    requires pos <= |data| && Count(m.header, 0) == 2 && m.sections == []
    requires UnitFrom(data, pos).GotUnit? && UnitFrom(data, pos).u.rdatas == []
    requires UnitFrom(data, UnitFrom(data, pos).next).GotUnit?
    requires var u, v := UnitFrom(data, pos).u, UnitFrom(data, UnitFrom(data, pos).next).u;
      u.name == v.name && u.typ == v.typ && |v.rdatas| == 1
    ensures all == UnitFrom(data, pos).u.(rdatas := UnitFrom(data, UnitFrom(data, pos).next).u.rdatas)
    ensures SectionsFrom(data, pos, m, 0) ==
      SectionsFrom(data, UnitFrom(data, UnitFrom(data, pos).next).next, m.(sections := [[all]]), 1)
  {
    hide UnitFrom, SectionFrom;
    var r := UnitFrom(data, pos);
    var r' := UnitFrom(data, r.next);
    UnitValid(data, pos);
    TogetherSelf(r.u);
    all := r.u.(rdatas := [] + [r'.u.rdatas[0]]);
    SectionStep(data, pos, 2, Group([], None));
    SectionStep(data, r.next, 1, Group([], Some(r.u)));
    SectionStep(data, r'.next, 0, Group([], Some(all)));
    assert [] + [all] == [all] && r'.u.rdatas == [r'.u.rdatas[0]];
  }
}
