/** Where the names of a rendered message are compressed, and where they are not. */
module MessagePointers {
  import opened Octets
  import opened Options
  import opened Names
  import C = Compression
  import R = Rdata
  import opened Pointing
  import opened Messages

  /** Names that a record type must not compress are spelled out, whatever the message holds. */
  lemma SpelledOut(st: C.State, f: R.Field)
    requires |st.table| == C.BUCKETS && R.Shape(R.CNameUncompress, f)
    ensures R.RendField(st, R.CNameUncompress, f).buf == st.buf + Wire(Labels(f.name))
  {
    var ls := Labels(f.name);
    assert ls[..|ls|] == ls;
  }

  /** A name that the table has is written as a pointer. */
  lemma KnownPointed(sf: C.Safety, st: C.State, ls: seq<Label>, item: C.Item)
    requires R.Ready(sf, st) && sf.Apart? && C.Safe(sf, ls) && ls != []
    requires |st.table| == C.BUCKETS && Listed(st.table, item) && SameLabels(item.ls, ls)
    ensures var buf := C.WriteName(st, ls, true).buf; |buf| == |st.buf| + 2 && buf[|st.buf|] >= 0xc0
  {
    hide C.Inv, C.SafeTable, C.Safe, C.FindIn, SameLabels, Hash, Wire, Body, Listed, C.AddSuffixes;
    ListedSafe(sf, st.table, item);
    C.SameHash(item.ls, ls);
    WireLength(item.ls);
    WireLength(ls);
    CandidateListed(st.table, item, ls, sf);
    assert ls[0..] == ls;
    SearchReaches(st.table, ls, 0, 0);
    assert ls[..0] == [];
    NoBody();
  }

  lemma NoBody()
    ensures Body([]) == []
  {
  }

  /** So is a compressed name in record data. */
  lemma FieldPointed(sf: C.Safety, st: C.State, f: R.Field, item: C.Item)
    requires R.Ready(sf, st) && sf.Apart? && |st.table| == C.BUCKETS && R.Shape(R.CName, f)
    requires C.Safe(sf, Labels(f.name)) && Labels(f.name) != []
    requires Listed(st.table, item) && SameLabels(item.ls, Labels(f.name))
    ensures var buf := R.RendField(st, R.CName, f).buf; |buf| == |st.buf| + 2 && buf[|st.buf|] >= 0xc0
  {
    hide C.WriteName, R.Ready, C.Safe, Listed, SameLabels;
    KnownPointed(sf, st, Labels(f.name), item);
  }

  /** And the owner of a record, which then begins with that pointer. */
  lemma OwnerPointed(sf: C.Safety, st: C.State, u: RRset, item: C.Item)
    requires R.Ready(sf, st) && sf.Apart? && |st.table| == C.BUCKETS
    requires RRsetOk(u) && SetSafe(sf, u) && |u.rdatas| <= 1 && UnitShape(u) && Labels(u.name) != []
    requires Listed(st.table, item) && SameLabels(item.ls, Labels(u.name))
    ensures var buf := RendUnit(st, u).buf; |st.buf| < |buf| && buf[|st.buf|] >= 0xc0
  {
    hide C.WriteName, C.Safe, C.Inv, C.SafeTable, Listed, SameLabels, RRsetOk, R.FieldsSafe, UnitShape;
    UnitParts(sf, u);
    var ls := Labels(u.name);
    KnownPointed(sf, st, ls, item);
    var s1 := C.WriteName(st, ls, true);
    if u.rdatas == [] {
      UnitKeepsNoData(sf, st, u);
    } else {
      UnitKeepsData(sf, st, u);
      DataAfter(st, u);
    }
  }

  lemma UnitParts(sf: C.Safety, u: RRset)
    requires RRsetOk(u) && SetSafe(sf, u)
    ensures Valid(u.name) && C.Safe(sf, Labels(u.name))
  {
  }

  lemma DataAfter(st: C.State, u: RRset)
    requires |st.table| == C.BUCKETS && Valid(u.name)
    ensures C.WriteName(st, Labels(u.name), true).buf <= BeforeData(st, u).buf
    ensures |BeforeData(st, u).buf| == |C.WriteName(st, Labels(u.name), true).buf| + 10
  {
    hide C.WriteName;
  }

  // ----- The question and the first answer -----

  lemma {:induction false} NothingFound(table: seq<seq<C.Item>>, ls: seq<Label>, k: nat)
    requires |table| == C.BUCKETS && k <= |ls| && forall b :: 0 <= b < C.BUCKETS ==> table[b] == []
    ensures C.Search(table, ls, k) == C.Miss
    decreases |ls| - k
  {
    hide Hash, Wire;
    if k < |ls| {
      NothingFound(table, ls, k + 1);
    }
  }

  /** The state behind the header and the question. */
  ghost function AfterQuestion(m: Message): (st: C.State)
    requires m.question.Some? && Valid(m.question.value.name)
    ensures |st.table| == C.BUCKETS
  {
    RendQuestion(C.WriteData(C.Fresh(), HeaderOut(m.header)), m.question.value)
  }

  /** The name of the question is spelled out behind the header, and in the table. */
  lemma QuestionListed(m: Message) returns (item: C.Item)
    requires m.question.Some? && Valid(m.question.value.name) && Labels(m.question.value.name) != []
    ensures Listed(AfterQuestion(m).table, item) && item.ls == Labels(m.question.value.name)
    ensures |AfterQuestion(m).buf| == 12 + |Wire(Labels(m.question.value.name))| + 4
  {
    hide HeaderOut, Hash, Wire, Body, C.Search, C.AddSuffixes, Listed;
    var ls, s0 := Labels(m.question.value.name), C.WriteData(C.Fresh(), HeaderOut(m.header));
    HeaderSize(m.header);
    NothingFound(s0.table, ls, 0);
    assert ls[0..|ls|] + [] == ls && ls[..|ls|] == ls && ls[0..] == ls && ls[..0] == [];
    NoBody();
    WireLength(ls);
    item := C.Item(Hash(Wire(ls)), 12, ls);
    SuffixesListed(s0.table, ls, 0, |ls|, 12, [], 0, item);
  }

  /** What is written later leaves an octet as it is. */
  lemma StaysThere(s: C.State, s': C.State, p: nat)
    requires R.Ext(s, s', -2) && p < |s.buf|
    ensures p < |s'.buf| && s'.buf[p] == s.buf[p]
  {
  }

  /**
    * In every message with names from a pool, an answer with the name of the question begins
    * with a pointer, right behind the question.
    */
  lemma AnswerPoints(sf: C.Safety, m: Message)
    requires MessageOk(m) && MessageSafe(sf, m) && sf.Apart? && m.question.Some? && m.sections[0] != []
    requires Labels(m.question.value.name) != [] && SameName(m.sections[0][0].name, m.question.value.name)
    ensures var buf, p := RendMessage(C.Fresh(), m).buf, 12 + |Wire(Labels(m.question.value.name))| + 4;
      p < |buf| && buf[p] >= 0xc0
  {
    hide HeaderOut, Hash, Wire, Body, C.Search, C.AddSuffixes, Listed, C.WriteName, C.Inv, C.SafeTable, C.Safe, R.Ext,
      RendQuestion, RendUnit, SectionOk, UnitsOk, SectionUnits, SetSafe, SameLabels, RRsetOk;
    var q, sec := m.question.value, m.sections[0];
    var st := AfterQuestion(m);
    var item := QuestionListed(m);
    var s0 := C.WriteData(C.Fresh(), HeaderOut(m.header));
    FreshReady(sf);
    WriteDataReady(sf, C.Fresh(), HeaderOut(m.header));
    QuestionKeeps(sf, s0, q);
    SectionUnitsOk(sec);
    SectionUnitsSafe(sf, sec);
    FirstOf(sec);
    var us := SectionUnits(sec);
    FirstPoints(sf, st, us, item);
    var s1 := RendUnits(st, us);
    UnitsKeep(sf, st, us);
    SectionsTail(sf, m.sections);
    SectionsKeep(sf, s1, m.sections[1..]);
    StaysThere(s1, RendSections(s1, m.sections[1..]), |st.buf|);
  }

  lemma SectionsTail(sf: C.Safety, secs: seq<seq<RRset>>)
    requires secs != [] && SectionsOk(secs) && SectionsSafe(sf, secs)
    ensures SectionsOk(secs[1..]) && SectionsSafe(sf, secs[1..])
  {
    hide SectionOk, SectionSafe;
  }

  /** The first record of a section has the name of its first RRset. */
  lemma FirstOf(sec: seq<RRset>)
    requires sec != []
    ensures SectionUnits(sec) != [] && SectionUnits(sec)[0].name == sec[0].name
  {
    assert Units(sec[0]) != [] && Units(sec[0])[0].name == sec[0].name;
  }

  lemma FirstPoints(sf: C.Safety, st: C.State, us: seq<RRset>, item: C.Item)
    requires R.Ready(sf, st) && sf.Apart? && |st.table| == C.BUCKETS && us != [] && UnitsOk(us) && UnitsSafe(sf, us)
    requires Listed(st.table, item) && item.ls != [] && Valid(us[0].name) && SameLabels(Labels(us[0].name), item.ls)
    ensures var buf := RendUnits(st, us).buf; |st.buf| < |buf| && buf[|st.buf|] >= 0xc0
  {
    hide C.Inv, C.SafeTable, C.Safe, R.Ext, RendUnit, RRsetOk, Listed, UnitShape, SetSafe;
    assert UnitOk(us[0]) && SetSafe(sf, us[0]);
    C.SameLabelsBack(Labels(us[0].name), item.ls);
    OwnerPointed(sf, st, us[0], item);
    UnitKeeps(sf, st, us[0]);
    var s1 := RendUnit(st, us[0]);
    assert UnitsOk(us[1..]) && UnitsSafe(sf, us[1..]);
    UnitsKeep(sf, s1, us[1..]);
    StaysThere(s1, RendUnits(s1, us[1..]), |st.buf|);
  }
}
