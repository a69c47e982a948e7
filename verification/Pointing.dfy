/**
  * That compression compresses: in every run a name whose suffix stands spelled out in the
  * message, where a pointer can reach it, takes no more octets than the labels before that
  * suffix and one pointer.
  */
module Pointing {
  import opened Octets
  import opened Options
  import opened Names
  import opened NameWire
  import opened Compression

  // ----- What the table holds -----

  ghost predicate Listed(table: seq<seq<Item>>, item: Item)
    requires |table| == BUCKETS
  {
    item in table[item.hash % BUCKETS]
  }

  lemma ListedAdd(table: seq<seq<Item>>, item: Item, other: Item)
    requires |table| == BUCKETS
    ensures Listed(AddItem(table, item), item)
    ensures Listed(table, other) ==> Listed(AddItem(table, item), other)
  {
    var b := item.hash % BUCKETS;
    assert AddItem(table, item)[b] == table[b] + [item];
  }

  lemma {:induction false} OffsetsRise(ls: seq<Label>, j: nat, m: nat)
    requires j <= m <= |ls|
    ensures Offset(ls, j) + 2 * (m - j) <= Offset(ls, m)
  {
    BodyConcat(ls[..j], ls[j..m]);
    assert ls[..j] + ls[j..m] == ls[..m];
    BodyLength(ls[j..m]);
  }

  /** Entering suffixes keeps what is there and leaves out none that can be pointed at. */
  lemma {:induction false} SuffixesListed(table: seq<seq<Item>>, ls: seq<Label>, j: nat, k: nat, base: nat,
                                          tail: seq<Label>, m: nat, other: Item)
    requires |table| == BUCKETS && j <= k <= |ls|
    ensures Listed(table, other) ==> Listed(AddSuffixes(table, ls, j, k, base, tail), other)
    ensures j <= m < k && base + Offset(ls, m) <= MAX_COMPRESS_POINTER ==>
      Listed(AddSuffixes(table, ls, j, k, base, tail),
             Item(Hash(Wire(ls[m..])), base + Offset(ls, m), ls[m..k] + tail))
    decreases k - j
  {
    hide Hash, Wire, Offset, Listed, AddItem;
    if j <= m < k {
      OffsetsRise(ls, j, m);
    }
    if j < k && base + Offset(ls, j) <= MAX_COMPRESS_POINTER {
      var item := Item(Hash(Wire(ls[j..])), base + Offset(ls, j), ls[j..k] + tail);
      ListedAdd(table, item, other);
      SuffixesListed(AddItem(table, item), ls, j + 1, k, base, tail, m, other);
      SuffixesListed(AddItem(table, item), ls, j + 1, k, base, tail, m, item);
    }
  }

  lemma ListedApply(st: State, op: Op, item: Item)
    requires |st.table| == BUCKETS && Listed(st.table, item)
    ensures Listed(Apply(st, op).table, item)
  {
    hide Listed, AddSuffixes, Split;
    if op.OpName? {
      var (k, h) := Split(st, op.ls, op.compress);
      SuffixesListed(st.table, op.ls, 0, k, |st.buf|, Tail(h), 0, item);
    }
  }

  lemma {:induction false} ListedRun(ops: seq<Op>, m: nat, n: nat, item: Item)
    requires m <= n <= |ops| && Listed(Run(ops[..m]).table, item)
    ensures Listed(Run(ops[..n]).table, item)
    decreases n
  {
    hide Run, Listed, Apply;
    if m < n {
      ListedRun(ops, m, n - 1, item);
      RunStep(ops, n - 1);
      ListedApply(Run(ops[..n - 1]), ops[n - 1], item);
    }
  }

  // ----- What a search finds -----

  /** In a pool a bucket search finds a name as soon as there is a candidate for it. */
  lemma {:induction false} FindsCandidate(items: seq<Item>, ls: seq<Label>, sf: Safety, item: Item)
    requires sf.Apart? && ls != [] && Safe(sf, ls) && forall i :: 0 <= i < |items| ==> SafeItem(sf, items[i])
    requires item in items && Candidate(item, Wire(ls), Hash(Wire(ls)))
    ensures FindIn(items, Wire(ls), Hash(Wire(ls)), 0).Some?
  {
    hide Safe, Hash, Wire, MatchFrom;
    var last, name := items[|items| - 1], Wire(ls);
    if Candidate(last, name, Hash(name)) {
      assert SafeItem(sf, last);
      CandidateMatches(last, ls, sf);
    } else {
      FindsCandidate(items[..|items| - 1], ls, sf, item);
    }
  }

  lemma CandidateMatches(item: Item, ls: seq<Label>, sf: Safety)
    requires sf.Apart? && ls != [] && Safe(sf, ls) && SafeItem(sf, item) && Candidate(item, Wire(ls), Hash(Wire(ls)))
    ensures Compare(item, Wire(ls), Hash(Wire(ls)), 0).0
  {
    hide Safe, Hash, MatchFrom, SameLabels, SameFold;
    PoolTells(sf, item.ls, ls);
    SameEncoding(item.ls, ls);
    WireStart(ls);
    MatchTells(Wire(item.ls), Wire(ls), 0);
  }

  lemma {:induction false} SearchReaches(table: seq<seq<Item>>, ls: seq<Label>, j: nat, k: nat)
    requires |table| == BUCKETS && j <= k < |ls| && Lookup(table, Wire(ls[k..])).Some?
    ensures Search(table, ls, j).HitAt? && Search(table, ls, j).level <= k
    decreases k - j
  {
    hide Lookup, Wire;
    if Lookup(table, Wire(ls[j..])).None? {
      SearchReaches(table, ls, j + 1, k);
    }
  }

  lemma WriteSize(st: State, ls: seq<Label>, k: nat)
    requires |st.table| == BUCKETS && k < |ls| && Lookup(st.table, Wire(ls[k..])).Some?
    ensures |WriteName(st, ls, true).buf| - |st.buf| <= |Body(ls[..k])| + 2
  {
    hide Lookup, Wire, Search, Body, AddSuffixes;
    SearchReaches(st.table, ls, 0, k);
    var h := Search(st.table, ls, 0);
    OffsetsRise(ls, h.level, k);
    assert Offset(ls, h.level) == |Body(ls[..h.level])| && Offset(ls, k) == |Body(ls[..k])|;
  }

  /** No write takes more than the name spelled out, and one without compression takes just that. */
  lemma WriteBound(st: State, ls: seq<Label>, compress: bool)
    requires |st.table| == BUCKETS
    ensures |WriteName(st, ls, compress).buf| - |st.buf| <= |Body(ls)| + 1
    ensures !compress ==> WriteName(st, ls, compress).buf == st.buf + Wire(ls)
  {
    hide Search, Body, AddSuffixes;
    var (k, h) := Split(st, ls, compress);
    OffsetsRise(ls, k, |ls|);
    assert ls[..|ls|] == ls;
  }

  // ----- Over whole runs -----

  /** Where label `m` of the name of operation `j` stands if it was spelled out. */
  function LabelPos(ops: seq<Op>, j: nat, m: nat): nat
    requires j < |ops| && ops[j].OpName? && m < |ops[j].ls|
  {
    Before(ops, j) + |Body(ops[j].ls[..m])|
  }

  /** The octet there belongs to the name and is not the start of a pointer. */
  ghost predicate Spelled(ops: seq<Op>, j: nat, m: nat)
    requires j < |ops| && ops[j].OpName? && m < |ops[j].ls|
  {
    LabelPos(ops, j, m) < Before(ops, j + 1) && Run(ops[..j + 1]).buf[LabelPos(ops, j, m)] < 0xc0
  }

  lemma WrittenOctets(st: State, ls: seq<Label>, compress: bool, m: nat)
    requires |st.table| == BUCKETS && m < |ls|
    requires var p, buf := |st.buf| + Offset(ls, m), WriteName(st, ls, compress).buf; p < |buf| && buf[p] < 0xc0
    ensures m < Split(st, ls, compress).0
  {
    hide Search, Body, AddSuffixes;
    var (k, h) := Split(st, ls, compress);
    if m >= k {
      OffsetsRise(ls, k, m);
      SpeltEnd(st, ls, compress);
    }
  }

  /** Behind the labels that are spelled out there is a pointer, if not the end of the name. */
  lemma SpeltEnd(st: State, ls: seq<Label>, compress: bool)
    requires |st.table| == BUCKETS
    ensures var (k, h) := Split(st, ls, compress);
      var buf := WriteName(st, ls, compress).buf;
      && (k < |ls| ==> h.HitAt? && |buf| == |st.buf| + Offset(ls, k) + 2 && buf[|st.buf| + Offset(ls, k)] >= 0xc0)
  {
    hide Search, Body, AddSuffixes;
  }

  /** The suffix that a spelled-out label starts is in the table from then on. */
  lemma SpelledListed(ops: seq<Op>, i: nat, j: nat, m: nat) returns (item: Item)
    requires GoodRun(ops) && j < i <= |ops| && ops[j].OpName? && m < |ops[j].ls| && Spelled(ops, j, m)
    requires LabelPos(ops, j, m) <= 0x3fff
    ensures Listed(Run(ops[..i]).table, item) && item.pos == LabelPos(ops, j, m)
  {
    hide Run, Inv, Split, AddSuffixes, Hash, Wire, Listed, GoodOp;
    var st, ls, c := Run(ops[..j]), ops[j].ls, ops[j].compress;
    RunInvariant(ops, j);
    RunStep(ops, j);
    WrittenOctets(st, ls, c, m);
    var (k, h) := Split(st, ls, c);
    item := Item(Hash(Wire(ls[m..])), LabelPos(ops, j, m), ls[m..k] + Tail(h));
    SuffixesListed(st.table, ls, 0, k, |st.buf|, Tail(h), m, item);
    ListedRun(ops, j + 1, i, item);
  }

  /** What an entry stands for is what decodes at its position. */
  lemma ListedReads(st: State, item: Item)
    requires Inv(st) && Listed(st.table, item)
    ensures item.pos <= |st.buf| && item.ls != [] && DecodeName(st.buf, item.pos).Ok?
    ensures DecodeName(st.buf, item.pos).ls == item.ls
  {
    hide At, Decode, Body, Stop;
    var b := item.hash % BUCKETS;
    var i :| 0 <= i < |st.table[b]| && st.table[b][i] == item;
    assert ItemOk(st.buf, st.mask, st.table[b][i]);
    AtDecodes(st.buf, st.mask, item.pos, item.pos, item.ls, 0);
  }

  lemma ListedSafe(sf: Safety, table: seq<seq<Item>>, item: Item)
    requires |table| == BUCKETS && SafeTable(sf, table) && Listed(table, item)
    ensures SafeItem(sf, item)
    ensures forall i :: 0 <= i < |table[item.hash % BUCKETS]| ==> SafeItem(sf, table[item.hash % BUCKETS][i])
  {
    hide SafeItem;
    var b := item.hash % BUCKETS;
    var i :| 0 <= i < |table[b]| && table[b][i] == item;
    assert SafeItem(sf, table[b][i]);
  }

  /**
    * In every run of names from a pool in which no two different ones share hash and size: when
    * an earlier name spelled out, within reach of a pointer, a label from which on the message
    * reads as the labels of a compressed name from number `k` on, up to case, then that name
    * takes no more than its first `k` labels and the two octets of a pointer.
    */
  lemma SuffixPointed(ops: seq<Op>, i: nat, k: nat, j: nat, m: nat, pool: set<seq<Label>>)
    requires GoodRun(ops) && j < i < |ops| && SafeNames(Apart(pool), ops, i + 1)
    requires ops[i].OpName? && ops[i].compress && k < |ops[i].ls|
    requires ops[j].OpName? && m < |ops[j].ls| && Spelled(ops, j, m) && LabelPos(ops, j, m) <= 0x3fff
    requires LabelPos(ops, j, m) <= |Run(ops[..i]).buf|
    requires var d := DecodeName(Run(ops[..i]).buf, LabelPos(ops, j, m)); d.Ok? && SameLabels(d.ls, ops[i].ls[k..])
    ensures Before(ops, i + 1) - Before(ops, i) <= |Body(ops[i].ls[..k])| + 2
  {
    hide Run, Inv, WriteName, Safe, SafeTable, SameLabels, Body, Hash, Wire, Spelled, Listed, Decode, GoodOp, FindIn;
    var st, ls, sf := Run(ops[..i]), ops[i].ls, Apart(pool);
    RunInvariant(ops, i);
    RunSafe(sf, ops, i);
    RunStep(ops, i);
    var item := SpelledListed(ops, i, j, m);
    ListedReads(st, item);
    ListedSafe(sf, st.table, item);
    SameHash(item.ls, ls[k..]);
    SafeSuffix(sf, ls, k);
    WireLength(item.ls);
    WireLength(ls[k..]);
    CandidateListed(st.table, item, ls[k..], sf);
    WriteSize(st, ls, k);
  }

  lemma WireLength(ls: seq<Label>)
    ensures |Wire(ls)| == |Body(ls)| + 1
  {
  }

  lemma CandidateListed(table: seq<seq<Item>>, item: Item, ls: seq<Label>, sf: Safety)
    requires |table| == BUCKETS && Listed(table, item) && sf.Apart? && ls != [] && Safe(sf, ls)
    requires forall i :: 0 <= i < |table[item.hash % BUCKETS]| ==> SafeItem(sf, table[item.hash % BUCKETS][i])
    requires Candidate(item, Wire(ls), Hash(Wire(ls)))
    ensures Lookup(table, Wire(ls)).Some?
  {
    hide Safe, SafeItem, Hash, Wire, FindIn;
    FindsCandidate(table[item.hash % BUCKETS], ls, sf, item);
  }
}
