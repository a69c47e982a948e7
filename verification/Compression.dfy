/**
  * Name compression: what one write of a name does to the message and to the table
  * of suffix positions, and the theorem that in every run each name written still
  * reads back from its own offset.
  */
module Compression {
  import opened Octets
  import opened Options
  import opened Names
  import opened NameWire

  const BUCKETS := 64
  const MAX_COMPRESS_POINTER := 0x3fff

  /** A suffix that may be pointed at: its hash, its position and its labels. */
  datatype Item = Item(hash: uint32, pos: nat, ls: seq<Label>)

  /** `mask` marks the octets of `buf` that belong to some name. */
  datatype State = State(buf: bytes, mask: seq<bool>, table: seq<seq<Item>>)

  function Fresh(): State {
    State([], [], seq(BUCKETS, i => []))
  }

  function Marks(n: nat, b: bool): (r: seq<bool>)
    ensures |r| == n && forall i :: 0 <= i < n ==> r[i] == b
  {
    seq(n, i => b)
  }

  // ----- Looking a suffix up -----

  /** One read of the suffix being looked up: past its end it yields zero for ever. */
  function Peek(name: bytes, cur: nat): byte {
    if cur < |name| then name[cur] else 0
  }

  function Advance(name: bytes, cur: nat): nat {
    if cur < |name| then cur + 1 else cur
  }

  /**
    * Compares the encoding `w` of a candidate, from octet `i` on, with what the cursor
    * `cur` delivers. Length octets are below the capitals, so folding leaves them exact.
    */
  function MatchFrom(w: bytes, i: nat, name: bytes, cur: nat): (bool, nat)
    requires i < |w|
    decreases |w| - i
  {
    var cur' := Advance(name, cur);
    if Lower(w[i]) != Lower(Peek(name, cur)) then (false, cur')
    else if i + 1 == |w| then (true, cur')
    else MatchFrom(w, i + 1, name, cur')
  }

  lemma MatchStep(w: bytes, i: nat, name: bytes, cur: nat)
    requires i < |w|
    ensures var cur' := Advance(name, cur);
            if Lower(w[i]) != Lower(Peek(name, cur)) then MatchFrom(w, i, name, cur) == (false, cur')
            else if i + 1 == |w| then MatchFrom(w, i, name, cur) == (true, cur')
            else MatchFrom(w, i, name, cur) == MatchFrom(w, i + 1, name, cur')
  {
  }

  function Compare(item: Item, name: bytes, hash: uint32, cur: nat): (bool, nat) {
    if item.hash != hash || |Wire(item.ls)| != |name| then (false, cur)
    else MatchFrom(Wire(item.ls), 0, name, cur)
  }

  /** The bucket is searched from its newest item; the cursor is not rewound in between. */
  function FindIn(items: seq<Item>, name: bytes, hash: uint32, cur: nat): Option<Item> {
    if items == [] then None
    else
      var last := items[|items| - 1];
      var (found, cur') := Compare(last, name, hash, cur);
      if found then Some(last) else FindIn(items[..|items| - 1], name, hash, cur')
  }

  function Lookup(table: seq<seq<Item>>, name: bytes): Option<Item>
    requires |table| == BUCKETS
  {
    FindIn(table[Hash(name) % BUCKETS], name, Hash(name), 0)
  }

  datatype Hit = Miss | HitAt(level: nat, item: Item)

  /** The longest suffix of `ls`, dropping at least `k` labels, that can be pointed at. */
  function Search(table: seq<seq<Item>>, ls: seq<Label>, k: nat): (h: Hit)
    requires |table| == BUCKETS && k <= |ls|
    ensures h.HitAt? ==> k <= h.level < |ls|
    decreases |ls| - k
  {
    if k == |ls| then Miss
    else match Lookup(table, Wire(ls[k..]))
      case Some(item) => HitAt(k, item)
      case None => Search(table, ls, k + 1)
  }

  // ----- Writing -----

  /** How many labels are spelled out, and which labels the rest decodes to. */
  function Split(st: State, ls: seq<Label>, compress: bool): (r: (nat, Hit))
    requires |st.table| == BUCKETS
    ensures r.0 <= |ls| && (r.1.Miss? ==> r.0 == |ls|) && (r.1.HitAt? ==> r.0 == r.1.level < |ls|)
  {
    var h := if compress then Search(st.table, ls, 0) else Miss;
    (if h.HitAt? then h.level else |ls|, h)
  }

  function Tail(h: Hit): seq<Label> {
    if h.HitAt? then h.item.ls else []
  }

  /** A pointer sets the two top bits over the 14 of the position; no hit ends the name. */
  function Ending(h: Hit): bytes {
    if h.HitAt? then U16(0xc000 + h.item.pos % 0x4000) else [0]
  }

  function AddItem(table: seq<seq<Item>>, item: Item): (t: seq<seq<Item>>)
    requires |table| == BUCKETS
    ensures |t| == BUCKETS
  {
    var b := item.hash % BUCKETS;
    table[b := table[b] + [item]]
  }

  /** Enters the suffixes from label `j` on, until one lies too far to be pointed at. */
  function AddSuffixes(table: seq<seq<Item>>, ls: seq<Label>, j: nat, k: nat, base: nat,
                       tail: seq<Label>): (t: seq<seq<Item>>)
    requires |table| == BUCKETS && j <= k <= |ls|
    ensures |t| == BUCKETS
    decreases k - j
  {
    if j == k || base + Offset(ls, j) > MAX_COMPRESS_POINTER then table
    else
      var item := Item(Hash(Wire(ls[j..])), base + Offset(ls, j), ls[j..k] + tail);
      AddSuffixes(AddItem(table, item), ls, j + 1, k, base, tail)
  }

  function WriteName(st: State, ls: seq<Label>, compress: bool): (st': State)
    requires |st.table| == BUCKETS
    ensures |st'.table| == BUCKETS
  {
    var (k, h) := Split(st, ls, compress);
    var out := Body(ls[..k]) + Ending(h);
    State(st.buf + out, st.mask + Marks(|out|, true), AddSuffixes(st.table, ls, 0, k, |st.buf|, Tail(h)))
  }

  function WriteData(st: State, data: bytes): State {
    State(st.buf + data, st.mask + Marks(|data|, false), st.table)
  }

  /** Overwrites two octets in place; out of range nothing happens. */
  function Patch16(st: State, v: uint16, pos: nat): State {
    if pos + 2 > |st.buf| then st
    else st.(buf := st.buf[pos := U16(v)[0]][pos + 1 := U16(v)[1]])
  }

  // ----- Names inside a message -----

  /**
    * A name with exactly the labels `ls` lies at `pos`: spelled out label by label or
    * ended by a pointer below `limit`, in octets that all belong to names.
    */
  ghost predicate At(data: bytes, mask: seq<bool>, pos: nat, limit: nat, ls: seq<Label>)
    requires |mask| == |data|
    decreases |ls|, if pos < |data| && data[pos] >= 0xc0 then 1 else 0
  {
    && pos < |data| && mask[pos]
    && if data[pos] >= 0xc0 then
         && pos + 1 < |data| && mask[pos + 1] && ls != []
         && var p := Target(data[pos], data[pos + 1]);
         && p < limit && p < |data| && data[p] <= MAX_LABEL_LEN
         && At(data, mask, p, p, ls)
       else if ls == [] then data[pos] == 0
       else
         var e := pos + 1 + |ls[0]|;
         && data[pos] == |ls[0]| && e <= |data| && data[pos + 1..e] == ls[0]
         && (forall i :: pos < i < e ==> mask[i])
         && At(data, mask, e, limit, ls[1..])
  }

  /** Where reading continues behind the name at `pos`. */
  ghost function Stop(data: bytes, pos: nat): nat
    decreases |data| - pos
  {
    if pos >= |data| then pos
    else if data[pos] >= 0xc0 then pos + 2
    else if data[pos] == 0 then pos + 1
    else Stop(data, pos + 1 + data[pos])
  }

  /** The decoder reads such a name back. */
  lemma {:induction false} AtDecodes(data: bytes, mask: seq<bool>, pos: nat, limit: nat, ls: seq<Label>, used: nat)
    requires |mask| == |data| && At(data, mask, pos, limit, ls) && limit <= |data|
    requires used + |Body(ls)| + 1 <= MAX_WIRE
    ensures Decode(data, pos, limit, used) == Ok(ls, Stop(data, pos))
    decreases |ls|, if data[pos] >= 0xc0 then 1 else 0
  {
    if data[pos] >= 0xc0 {
      var p := Target(data[pos], data[pos + 1]);
      AtDecodes(data, mask, p, p, ls, used);
    } else if ls != [] {
      var e := pos + 1 + |ls[0]|;
      AtDecodes(data, mask, e, limit, ls[1..], used + |ls[0]| + 1);
      assert [ls[0]] + ls[1..] == ls;
    }
  }

  /** Every octet of a name keeps its value and its mark. */
  ghost predicate Keeps(data: bytes, mask: seq<bool>, data': bytes, mask': seq<bool>) {
    && |mask| == |data| <= |data'| == |mask'|
    && forall i :: 0 <= i < |data| && mask[i] ==> mask'[i] && data'[i] == data[i]
  }

  /** Writes that keep the octets of names keep every name. */
  lemma {:induction false} AtStable(data: bytes, mask: seq<bool>, data': bytes, mask': seq<bool>,
                                    pos: nat, limit: nat, ls: seq<Label>)
    requires Keeps(data, mask, data', mask') && At(data, mask, pos, limit, ls)
    ensures At(data', mask', pos, limit, ls) && Stop(data', pos) == Stop(data, pos)
    decreases |ls|, if data[pos] >= 0xc0 then 1 else 0
  {
    if data[pos] >= 0xc0 {
      var p := Target(data[pos], data[pos + 1]);
      assert mask[p];
      AtStable(data, mask, data', mask', p, p, ls);
    } else if ls != [] {
      var e := pos + 1 + |ls[0]|;
      assert forall i :: pos < i < e ==> mask[i];
      assert data'[pos + 1..e] == data[pos + 1..e];
      AtStable(data, mask, data', mask', e, limit, ls[1..]);
    }
  }

  // ----- A match is sound -----

  ghost predicate NulFree(ls: seq<Label>) {
    forall i, j :: 0 <= i < |ls| && 0 <= j < |ls[i]| ==> ls[i][j] != 0
  }

  /**
    * Two ways to be safe from taking one name for another: no zero octets, or all names from
    * a pool, closed under dropping the first label, in which names that differ by more than
    * case also differ in hash or size.
    */
  datatype Safety = NoNuls | Apart(pool: set<seq<Label>>)

  ghost predicate PoolOk(pool: set<seq<Label>>) {
    && (forall x :: x in pool && x != [] ==> x[1..] in pool)
    && (forall x, y :: x in pool && y in pool && Hash(Wire(x)) == Hash(Wire(y)) && |Body(x)| == |Body(y)| ==>
          SameLabels(x, y))
  }

  ghost predicate InPool(pool: set<seq<Label>>, ls: seq<Label>) {
    exists u :: u in pool && SameLabels(ls, u)
  }

  ghost predicate Safe(sf: Safety, ls: seq<Label>) {
    match sf
    case NoNuls => NulFree(ls)
    case Apart(pool) => PoolOk(pool) && InPool(pool, ls)
  }

  ghost predicate SafeItem(sf: Safety, item: Item) {
    Safe(sf, item.ls) && (sf.Apart? ==> item.hash == Hash(Wire(item.ls)))
  }

  ghost predicate SafeTable(sf: Safety, table: seq<seq<Item>>) {
    forall b, i :: 0 <= b < |table| && 0 <= i < |table[b]| ==> SafeItem(sf, table[b][i])
  }

  lemma {:induction false} PoolSuffix(pool: set<seq<Label>>, u: seq<Label>, k: nat)
    requires PoolOk(pool) && u in pool && k <= |u|
    ensures u[k..] in pool
    decreases k
  {
    if k == 0 {
      assert u[0..] == u;
    } else {
      assert u[k..] == u[1..][k - 1..];
      PoolSuffix(pool, u[1..], k - 1);
    }
  }

  lemma SafeSuffix(sf: Safety, ls: seq<Label>, k: nat)
    requires Safe(sf, ls) && k <= |ls|
    ensures Safe(sf, ls[k..])
  {
    if sf.Apart? {
      var u :| u in sf.pool && SameLabels(ls, u);
      PoolSuffix(sf.pool, u, k);
      assert SameLabels(ls[k..], u[k..]);
    }
  }

  lemma SameHash(x: seq<Label>, y: seq<Label>)
    requires SameLabels(x, y)
    ensures Hash(Wire(x)) == Hash(Wire(y)) && |Body(x)| == |Body(y)|
  {
    SameLabelsSameWire(x, y);
    SameFoldSameHash(Wire(x), Wire(y));
  }

  lemma SameLabelsBack(x: seq<Label>, y: seq<Label>)
    requires SameLabels(x, y)
    ensures SameLabels(y, x)
  {
    forall i | 0 <= i < |y| ensures SameFold(y[i], x[i]) {
      assert SameFold(x[i], y[i]);
    }
  }

  lemma SameLabelsThrough(x: seq<Label>, y: seq<Label>, z: seq<Label>)
    requires SameLabels(x, y) && SameLabels(y, z)
    ensures SameLabels(x, z)
  {
    forall i | 0 <= i < |x| ensures SameFold(x[i], z[i]) {
      assert SameFold(x[i], y[i]) && SameFold(y[i], z[i]);
    }
  }

  /** In a pool, equal hash and equal size mean the same name. */
  lemma PoolTells(sf: Safety, x: seq<Label>, y: seq<Label>)
    requires sf.Apart? && Safe(sf, x) && Safe(sf, y) && Hash(Wire(x)) == Hash(Wire(y)) && |Body(x)| == |Body(y)|
    ensures SameLabels(x, y)
  {
    hide SameLabels, Hash, Wire, Body;
    var u :| u in sf.pool && SameLabels(x, u);
    var v :| v in sf.pool && SameLabels(y, v);
    SameHash(x, u);
    SameHash(y, v);
    SameLabelsThrough(x, u, v);
    SameLabelsBack(y, v);
    SameLabelsThrough(x, v, y);
  }

  /** What is entered for a suffix is as safe as the name and the tail it points to. */
  lemma SafeRejoined(sf: Safety, ls: seq<Label>, j: nat, k: nat, tail: seq<Label>, hash: uint32, pos: nat)
    requires j <= k <= |ls| && Safe(sf, ls) && Safe(sf, tail) && SameLabels(ls[j..k] + tail, ls[j..])
    requires hash == Hash(Wire(ls[j..]))
    ensures SafeItem(sf, Item(hash, pos, ls[j..k] + tail))
  {
    hide Hash, Wire, Body;
    if sf.Apart? {
      SafeSuffix(sf, ls, j);
      var u :| u in sf.pool && SameLabels(ls[j..], u);
      SameLabelsThrough(ls[j..k] + tail, ls[j..], u);
      SameHash(ls[j..k] + tail, ls[j..]);
    }
  }

  lemma {:induction false} NulFreeWire(ls: seq<Label>)
    requires NulFree(ls)
    ensures forall i :: 0 <= i < |Body(ls)| ==> Body(ls)[i] != 0
  {
    if ls != [] {
      assert forall i, j :: 0 <= i < |ls[1..]| && 0 <= j < |ls[1..][i]| ==> ls[1..][i][j] == ls[i + 1][j];
      NulFreeWire(ls[1..]);
      assert forall j :: 0 <= j < |ls[0]| ==> ls[0][j] != 0;
    }
  }

  lemma {:induction false} MatchReads(w: bytes, i: nat, name: bytes, cur: nat, j: nat)
    requires i <= j < |w| && MatchFrom(w, i, name, cur).0
    ensures Lower(w[j]) == Lower(Peek(name, cur + j - i))
    decreases |w| - i
  {
    if i < j {
      MatchReads(w, i + 1, name, Advance(name, cur), j);
    }
  }

  /**
    * A comparison succeeds exactly when the candidate is what the name reads from the cursor
    * on, with zeros behind its end; from a cursor that was left inside the name, that is a
    * different name.
    */
  lemma {:induction false} MatchExact(w: bytes, i: nat, name: bytes, cur: nat)
    requires i < |w|
    ensures MatchFrom(w, i, name, cur).0 <==> forall j :: i <= j < |w| ==> Lower(w[j]) == Lower(Peek(name, cur + j - i))
    decreases |w| - i
  {
    var next := Advance(name, cur);
    if Lower(w[i]) != Lower(Peek(name, cur)) {
      assert Lower(w[i]) != Lower(Peek(name, cur + i - i));
    } else if i + 1 < |w| {
      MatchExact(w, i + 1, name, next);
      forall j | i + 1 <= j < |w|
        ensures Lower(w[j]) == Lower(Peek(name, next + j - (i + 1))) <==> Lower(w[j]) == Lower(Peek(name, cur + j - i))
      {
      }
    }
  }

  lemma {:induction false} MatchAdvances(w: bytes, i: nat, name: bytes, cur: nat)
    requires i < |w|
    ensures cur <= MatchFrom(w, i, name, cur).1 && (name != [] ==> MatchFrom(w, i, name, cur).1 > 0)
    decreases |w| - i
  {
    if Lower(w[i]) == Lower(Peek(name, cur)) && i + 1 < |w| {
      MatchAdvances(w, i + 1, name, Advance(name, cur));
    }
  }

  /** A name that reads the same from a later octet on, with zeros behind its end, is all zeros. */
  lemma {:induction false} ShiftedZero(name: bytes, cur: nat, j: nat)
    requires cur > 0 && j < |name| && forall i :: 0 <= i < |name| ==> Lower(name[i]) == Lower(Peek(name, cur + i))
    ensures name[j] == 0
    decreases |name| - j
  {
    assert Lower(name[j]) == Lower(Peek(name, cur + j));
    if cur + j < |name| {
      ShiftedZero(name, cur, cur + j);
    }
  }

  /** The candidate `w` reads like the name from octet `cur` on. */
  ghost predicate ReadsLike(w: bytes, name: bytes, cur: nat) {
    forall j :: 0 <= j < |w| ==> Lower(w[j]) == Lower(Peek(name, cur + j))
  }

  lemma MatchReadsLike(w: bytes, name: bytes, cur: nat)
    requires w != []
    ensures MatchFrom(w, 0, name, cur).0 <==> ReadsLike(w, name, cur)
  {
    hide MatchFrom, Peek, Lower;
    MatchExact(w, 0, name, cur);
    forall j | 0 <= j < |w|
      ensures Lower(w[j]) == Lower(Peek(name, cur + j - 0)) <==> Lower(w[j]) == Lower(Peek(name, cur + j))
    {
    }
  }

  lemma LikeAtStart(w: bytes, name: bytes)
    requires |w| == |name|
    ensures ReadsLike(w, name, 0) <==> SameFold(w, name)
  {
    hide Lower;
    forall j | 0 <= j < |w|
      ensures Lower(w[j]) == Lower(Peek(name, 0 + j)) <==> Lower(w[j]) == Lower(name[j])
    {
    }
  }

  lemma LikeLater(w: bytes, name: bytes, cur: nat)
    requires 0 < |w| == |name| && name[0] != 0 && cur > 0 && ReadsLike(w, name, cur)
    ensures !SameFold(w, name)
  {
    hide Peek, Lower;
    if SameFold(w, name) {
      forall i | 0 <= i < |name| ensures Lower(name[i]) == Lower(Peek(name, cur + i)) {
        assert Lower(w[i]) == Lower(Peek(name, cur + i));
      }
      ShiftedZero(name, cur, 0);
    }
  }

  /** From the start of the name a match is equality up to case; from any later octet on it is never that. */
  lemma MatchTells(w: bytes, name: bytes, cur: nat)
    requires 0 < |w| == |name| && name[0] != 0
    ensures cur == 0 ==> (MatchFrom(w, 0, name, cur).0 <==> SameFold(w, name))
    ensures cur > 0 && MatchFrom(w, 0, name, cur).0 ==> !SameFold(w, name)
  {
    hide MatchFrom, ReadsLike, SameFold;
    MatchReadsLike(w, name, cur);
    LikeAtStart(w, name);
    if cur > 0 && ReadsLike(w, name, cur) {
      LikeLater(w, name, cur);
    }
  }

  /**
    * Even when the cursor starts somewhere inside the name, a reported match between
    * encodings of equal length is a true one, as long as the candidate has no zero octet
    * before its end: a late start would have to meet the end of the name too early.
    */
  lemma MatchSound(w: bytes, name: bytes, cur: nat)
    requires 2 <= |w| == |name| && w[|w| - 1] == 0 && name[|name| - 1] == 0
    requires forall i :: 0 <= i < |w| - 1 ==> w[i] != 0
    requires MatchFrom(w, 0, name, cur).0
    ensures SameFold(w, name)
  {
    if cur > 0 {
      var j := if cur < |w| then |w| - 1 - cur else 0;
      MatchReads(w, 0, name, cur, j);
      assert false;
    }
    forall j | 0 <= j < |w|
      ensures Lower(w[j]) == Lower(name[j])
    {
      MatchReads(w, 0, name, cur, j);
    }
  }

  // ----- What every write keeps -----

  ghost predicate ItemOk(buf: bytes, mask: seq<bool>, item: Item)
    requires |mask| == |buf|
  {
    && item.pos < |buf| && item.pos <= MAX_COMPRESS_POINTER && buf[item.pos] <= MAX_LABEL_LEN
    && item.ls != [] && FitsName(item.ls)
    && At(buf, mask, item.pos, item.pos, item.ls)
  }

  ghost predicate TableOk(buf: bytes, mask: seq<bool>, table: seq<seq<Item>>) {
    && |mask| == |buf| && |table| == BUCKETS
    && forall b, i :: 0 <= b < BUCKETS && 0 <= i < |table[b]| ==> ItemOk(buf, mask, table[b][i])
  }

  /** Every entry of the table leads to the name it stands for. */
  ghost predicate Inv(st: State) {
    TableOk(st.buf, st.mask, st.table)
  }

  lemma TableStable(buf: bytes, mask: seq<bool>, buf': bytes, mask': seq<bool>, table: seq<seq<Item>>)
    requires TableOk(buf, mask, table) && Keeps(buf, mask, buf', mask')
    ensures TableOk(buf', mask', table)
  {
    forall b, i | 0 <= b < BUCKETS && 0 <= i < |table[b]|
      ensures ItemOk(buf', mask', table[b][i])
    {
      var item := table[b][i];
      assert ItemOk(buf, mask, item) && mask[item.pos];
      AtStable(buf, mask, buf', mask', item.pos, item.pos, item.ls);
    }
  }

  /** What a hit promises: always the same size, and if all is safe the same labels. */
  ghost predicate HitOk(item: Item, ls: seq<Label>, sf: Safety, safe: bool) {
    |Body(item.ls)| == |Body(ls)| && (safe ==> Safe(sf, item.ls) && SameLabels(item.ls, ls))
  }

  /** One candidate that is taken. */
  lemma TakenSound(item: Item, ls: seq<Label>, cur: nat, sf: Safety)
    requires ls != [] && item.ls != [] && Compare(item, Wire(ls), Hash(Wire(ls)), cur).0
    requires Safe(sf, ls) && SafeItem(sf, item)
    ensures SameLabels(item.ls, ls)
  {
    hide Hash, Body, SameLabels;
    var name := Wire(ls);
    if sf.NoNuls? {
      NulFreeWire(item.ls);
      BodyLength(ls);
      MatchSound(Wire(item.ls), name, cur);
      SameWireSameLabels(item.ls, ls);
    } else {
      PoolTells(sf, item.ls, ls);
    }
  }

  lemma {:induction false} FindSound(items: seq<Item>, ls: seq<Label>, cur: nat, sf: Safety, safe: bool)
    requires ls != [] && (safe ==> Safe(sf, ls))
    requires forall i :: 0 <= i < |items| ==> items[i].ls != [] && (safe ==> SafeItem(sf, items[i]))
    ensures var r := FindIn(items, Wire(ls), Hash(Wire(ls)), cur);
            r.Some? ==> r.value in items && HitOk(r.value, ls, sf, safe)
  {
    hide Safe, SameLabels, Hash;
    if items != [] {
      var last, name := items[|items| - 1], Wire(ls);
      var (found, cur') := Compare(last, name, Hash(name), cur);
      if found && safe {
        TakenSound(last, ls, cur, sf);
      } else if !found {
        FindSound(items[..|items| - 1], ls, cur', sf, safe);
      }
    }
  }

  lemma {:induction false} SearchSound(st: State, ls: seq<Label>, k: nat, sf: Safety, safe: bool)
    requires Inv(st) && k <= |ls| && (safe ==> SafeTable(sf, st.table) && Safe(sf, ls))
    ensures var h := Search(st.table, ls, k);
            h.HitAt? ==> ItemOk(st.buf, st.mask, h.item) && HitOk(h.item, ls[h.level..], sf, safe)
    decreases |ls| - k
  {
    hide Safe, SafeItem, Hash, SameLabels;
    if k < |ls| {
      var name := Wire(ls[k..]);
      var items := st.table[Hash(name) % BUCKETS];
      assert forall i :: 0 <= i < |items| ==> ItemOk(st.buf, st.mask, items[i]);
      if safe {
        SafeSuffix(sf, ls, k);
      }
      FindSound(items, ls[k..], 0, sf, safe);
      if Lookup(st.table, name).None? {
        SearchSound(st, ls, k + 1, sf, safe);
      }
    }
  }

  ghost predicate Written(st: State, ls: seq<Label>, k: nat, h: Hit, data: bytes, mask: seq<bool>) {
    && |st.mask| == |st.buf| && k <= |ls| && (h.HitAt? ==> ItemOk(st.buf, st.mask, h.item))
    && data == st.buf + Body(ls[..k]) + Ending(h)
    && mask == st.mask + Marks(|data| - |st.buf|, true)
  }

  lemma PointerReads(pos: nat)
    requires pos <= MAX_COMPRESS_POINTER
    ensures var s := U16(0xc000 + pos % 0x4000); s[0] >= 0xc0 && Target(s[0], s[1]) == pos
  {
  }

  lemma AtLabel(data: bytes, mask: seq<bool>, pos: nat, limit: nat, l: Label, rest: seq<Label>)
    requires |mask| == |data|
    requires pos + 1 + |l| <= |data| && data[pos] == |l| && data[pos + 1..pos + 1 + |l|] == l
    requires forall i :: pos <= i < pos + 1 + |l| ==> mask[i]
    requires At(data, mask, pos + 1 + |l|, limit, rest)
    ensures At(data, mask, pos, limit, [l] + rest) && Stop(data, pos) == Stop(data, pos + 1 + |l|)
  {
    assert ([l] + rest)[1..] == rest;
  }

  lemma AtPointer(data: bytes, mask: seq<bool>, pos: nat, limit: nat, p: nat, ls: seq<Label>)
    requires |mask| == |data| && ls != []
    requires pos + 1 < |data| && data[pos] >= 0xc0 && Target(data[pos], data[pos + 1]) == p
    requires mask[pos] && mask[pos + 1]
    requires p < limit && p < |data| && data[p] <= MAX_LABEL_LEN && At(data, mask, p, p, ls)
    ensures At(data, mask, pos, limit, ls) && Stop(data, pos) == pos + 2
  {
  }

  /** Behind the spelled-out labels there is a zero octet or a pointer to the rest. */
  lemma EndingAt(st: State, ls: seq<Label>, k: nat, h: Hit, data: bytes, mask: seq<bool>, limit: nat)
    requires Written(st, ls, k, h, data, mask) && limit >= |st.buf|
    ensures var pos := |st.buf| + Offset(ls, k);
            At(data, mask, pos, limit, Tail(h)) && Stop(data, pos) == |data|
  {
    hide Body;
    var pos := |st.buf| + Offset(ls, k);
    assert data[pos] == Ending(h)[0];
    if h.HitAt? {
      var p := h.item.pos;
      PointerReads(p);
      assert data[pos + 1] == Ending(h)[1];
      assert data[p] == st.buf[p];
      AtStable(st.buf, st.mask, data, mask, p, p, h.item.ls);
      AtPointer(data, mask, pos, limit, p, h.item.ls);
    }
  }

  /** Every suffix of the written name lies where its labels were spelled out. */
  lemma {:induction false} SuffixAt(st: State, ls: seq<Label>, k: nat, h: Hit, data: bytes, mask: seq<bool>,
                                    limit: nat, j: nat)
    requires Written(st, ls, k, h, data, mask) && limit >= |st.buf| && j <= k
    ensures var pos := |st.buf| + Offset(ls, j);
            At(data, mask, pos, limit, ls[j..k] + Tail(h)) && Stop(data, pos) == |data|
    decreases k - j
  {
    hide Body, At, Stop, Tail, Ending;
    if j == k {
      EndingAt(st, ls, k, h, data, mask, limit);
      assert ls[j..k] + Tail(h) == Tail(h);
    } else {
      SuffixAt(st, ls, k, h, data, mask, limit, j + 1);
      SpelledOut(st.buf, ls, k, Ending(h), j);
      AtLabel(data, mask, |st.buf| + Offset(ls, j), limit, ls[j], ls[j + 1..k] + Tail(h));
      assert [ls[j]] + (ls[j + 1..k] + Tail(h)) == ls[j..k] + Tail(h);
    }
  }

  lemma SpelledOut(buf: bytes, ls: seq<Label>, k: nat, ending: bytes, j: nat)
    requires j < k <= |ls|
    ensures var data, pos := buf + Body(ls[..k]) + ending, |buf| + Offset(ls, j);
            && |buf| + Offset(ls, j + 1) == pos + 1 + |ls[j]| <= |data|
            && data[pos] == |ls[j]| && data[pos + 1..pos + 1 + |ls[j]|] == ls[j]
  {
    var data, pos := buf + Body(ls[..k]) + ending, |buf| + Offset(ls, j);
    LabelAt(ls[..k], j);
    assert ls[..k][..j] == ls[..j] && ls[..k][..j + 1] == ls[..j + 1];
    var o := Offset(ls, j);
    assert Wire(ls[..k])[..|Body(ls[..k])|] == Body(ls[..k]);
    assert data[pos + 1..pos + 1 + |ls[j]|] == Body(ls[..k])[o + 1..o + 1 + |ls[j]|];
  }

  /** The spelled-out labels followed by what was found have the size, and if sound the labels, of `ls`. */
  lemma Rejoined(ls: seq<Label>, k: nat, tail: seq<Label>, j: nat)
    requires j <= k <= |ls| && FitsName(ls) && |Body(tail)| == |Body(ls[k..])|
    ensures |Body(ls[j..k] + tail)| == |Body(ls[j..])| && FitsName(ls[j..k] + tail)
    ensures SameLabels(tail, ls[k..]) ==> SameLabels(ls[j..k] + tail, ls[j..])
  {
    var x, y := ls[j..k] + tail, ls[j..];
    BodyConcat(ls[j..k], tail);
    BodyConcat(ls[j..k], ls[k..]);
    assert ls[j..k] + ls[k..] == y;
    BodySplit(ls, j);
    if SameLabels(tail, ls[k..]) {
      forall i | 0 <= i < |x|
        ensures SameFold(x[i], y[i])
      {
        if i >= k - j {
          assert SameFold(tail[i - (k - j)], ls[k..][i - (k - j)]);
        }
      }
    }
  }

  lemma AddItemOk(data: bytes, mask: seq<bool>, table: seq<seq<Item>>, item: Item)
    requires TableOk(data, mask, table) && ItemOk(data, mask, item)
    ensures TableOk(data, mask, AddItem(table, item))
  {
    hide ItemOk;
    var t, c := AddItem(table, item), item.hash % BUCKETS;
    forall b, i | 0 <= b < BUCKETS && 0 <= i < |t[b]|
      ensures ItemOk(data, mask, t[b][i])
    {
      if b != c || i < |table[c]| {
        assert t[b][i] == table[b][i];
      }
    }
  }

  lemma AddItemSafe(sf: Safety, table: seq<seq<Item>>, item: Item)
    requires |table| == BUCKETS && SafeTable(sf, table) && SafeItem(sf, item)
    ensures SafeTable(sf, AddItem(table, item))
  {
    hide SafeItem;
    var t: seq<seq<Item>>, c := AddItem(table, item), item.hash % BUCKETS;
    forall b, i | 0 <= b < BUCKETS && 0 <= i < |t[b]|
      ensures SafeItem(sf, t[b][i])
    {
      if b != c || i < |table[c]| {
        assert t[b][i] == table[b][i];
      }
    }
  }

  lemma {:induction false} AddSuffixesOk(st: State, ls: seq<Label>, k: nat, h: Hit, data: bytes, mask: seq<bool>,
                                         table: seq<seq<Item>>, j: nat, sf: Safety)
    requires Written(st, ls, k, h, data, mask) && |Body(Tail(h))| == |Body(ls[k..])|
    requires FitsName(ls) && j <= k && TableOk(data, mask, table)
    ensures TableOk(data, mask, AddSuffixes(table, ls, j, k, |st.buf|, Tail(h)))
    ensures SafeTable(sf, table) && Safe(sf, ls) && Safe(sf, Tail(h)) && SameLabels(Tail(h), ls[k..]) ==>
              SafeTable(sf, AddSuffixes(table, ls, j, k, |st.buf|, Tail(h)))
    decreases k - j
  {
    hide At, Stop, Body, Tail, Ending, Hash, Wire, SameLabels, Safe, SafeTable, SafeItem, FitsName;
    var pos := |st.buf| + Offset(ls, j);
    if j < k && pos <= MAX_COMPRESS_POINTER {
      var item := Item(Hash(Wire(ls[j..])), pos, ls[j..k] + Tail(h));
      SuffixAt(st, ls, k, h, data, mask, pos, j);
      SpelledOut(st.buf, ls, k, Ending(h), j);
      Rejoined(ls, k, Tail(h), j);
      AddItemOk(data, mask, table, item);
      if SafeTable(sf, table) && Safe(sf, ls) && Safe(sf, Tail(h)) && SameLabels(Tail(h), ls[k..]) {
        SafeRejoined(sf, ls, j, k, Tail(h), item.hash, pos);
        AddItemSafe(sf, table, item);
      }
      AddSuffixesOk(st, ls, k, h, data, mask, AddItem(table, item), j + 1, sf);
    }
  }

  lemma StartOffset(ls: seq<Label>)
    ensures Offset(ls, 0) == 0
  {
  }

  /** The labels that come back for a name written in state `st`. */
  ghost function ReadBack(st: State, ls: seq<Label>, compress: bool): seq<Label>
    requires |st.table| == BUCKETS
  {
    var (k, h) := Split(st, ls, compress);
    ls[..k] + Tail(h)
  }

  /**
    * One write of a name: the invariant holds again, no octet of an earlier name is
    * touched, and at the old end lies a name of the same size that is spelled as asked
    * when not compressed, and otherwise equal up to case if all names are safe.
    */
  lemma WriteNameKeeps(st: State, ls: seq<Label>, compress: bool, sf: Safety)
    requires Inv(st) && FitsName(ls)
    ensures var st' := WriteName(st, ls, compress);
            var back := ReadBack(st, ls, compress);
            && Inv(st') && Keeps(st.buf, st.mask, st'.buf, st'.mask)
            && At(st'.buf, st'.mask, |st.buf|, |st.buf|, back) && Stop(st'.buf, |st.buf|) == |st'.buf|
            && |Body(back)| == |Body(ls)|
            && (!compress ==> back == ls)
            && (SafeTable(sf, st.table) && Safe(sf, ls) ==> SafeTable(sf, st'.table) && SameLabels(back, ls))
  {
    hide At, Stop, ItemOk, Body, Wire, Hash, Safe, SafeTable, SameLabels, FitsName, Search, AddSuffixes;
    var st' := WriteName(st, ls, compress);
    var (k, h) := Split(st, ls, compress);
    var safe := SafeTable(sf, st.table) && Safe(sf, ls);
    SearchSound(st, ls, 0, sf, safe);
    assert ls[|ls|..] == [];
    NoLabels();
    if safe {
      SafeSuffix(sf, ls, |ls|);
    }
    assert Written(st, ls, k, h, st'.buf, st'.mask);
    TableStable(st.buf, st.mask, st'.buf, st'.mask, st.table);
    AddSuffixesOk(st, ls, k, h, st'.buf, st'.mask, st.table, 0, sf);
    SuffixAt(st, ls, k, h, st'.buf, st'.mask, |st.buf|, 0);
    Rejoined(ls, k, Tail(h), 0);
    assert ls[0..k] == ls[..k] && ls[0..] == ls;
    StartOffset(ls);
  }

  lemma SplitSize(st: State, ls: seq<Label>, compress: bool)
    requires Inv(st)
    ensures var (k, h) := Split(st, ls, compress); |Body(Tail(h))| == |Body(ls[k..])|
  {
    SearchSound(st, ls, 0, NoNuls, false);
    assert ls[|ls|..] == [];
  }

  lemma NoLabels()
    ensures SameLabels([], [])
  {
  }

  lemma WriteDataKeeps(st: State, data: bytes)
    requires Inv(st)
    ensures var st' := WriteData(st, data); Inv(st') && Keeps(st.buf, st.mask, st'.buf, st'.mask)
  {
    var st' := WriteData(st, data);
    TableStable(st.buf, st.mask, st'.buf, st'.mask, st.table);
  }

  lemma PatchKeeps(st: State, v: uint16, pos: nat)
    requires Inv(st) && (pos + 2 <= |st.buf| ==> !st.mask[pos] && !st.mask[pos + 1])
    ensures var st' := Patch16(st, v, pos); Inv(st') && Keeps(st.buf, st.mask, st'.buf, st'.mask)
  {
    var st' := Patch16(st, v, pos);
    TableStable(st.buf, st.mask, st'.buf, st'.mask, st.table);
  }

  // ----- Exactly when a compressed name reads back as another -----

  predicate Candidate(item: Item, name: bytes, hash: uint32) {
    item.hash == hash && |Wire(item.ls)| == |name|
  }

  /** The newest item of a bucket that has the hash and the size of a name. */
  function Newest(items: seq<Item>, name: bytes, hash: uint32): Option<Item> {
    if items == [] then None
    else
      var last := items[|items| - 1];
      if Candidate(last, name, hash) then Some(last) else Newest(items[..|items| - 1], name, hash)
  }

  /** Once the cursor is off the start, only other names are found. */
  lemma {:induction false} FindLate(items: seq<Item>, name: bytes, hash: uint32, cur: nat)
    requires name != [] && name[0] != 0 && cur > 0
    ensures var r := FindIn(items, name, hash, cur); r.Some? ==> !SameFold(Wire(r.value.ls), name)
  {
    hide SameFold, Wire, MatchFrom;
    if items != [] {
      var last := items[|items| - 1];
      var (found, cur') := Compare(last, name, hash, cur);
      if Candidate(last, name, hash) {
        MatchTells(Wire(last.ls), name, cur);
        MatchAdvances(Wire(last.ls), 0, name, cur);
      }
      if !found {
        FindLate(items[..|items| - 1], name, hash, cur');
      }
    }
  }

  /** A bucket search finds the name asked for exactly when the newest candidate is that name. */
  lemma {:induction false} FindTells(items: seq<Item>, name: bytes, hash: uint32)
    requires name != [] && name[0] != 0
    ensures var r, n := FindIn(items, name, hash, 0), Newest(items, name, hash);
      r.Some? ==> n.Some? && (SameFold(Wire(r.value.ls), name) <==> SameFold(Wire(n.value.ls), name))
  {
    hide SameFold, Wire, MatchFrom;
    if items != [] {
      var last := items[|items| - 1];
      var (found, cur') := Compare(last, name, hash, 0);
      if Candidate(last, name, hash) {
        MatchTells(Wire(last.ls), name, 0);
        MatchAdvances(Wire(last.ls), 0, name, 0);
        if !found {
          FindLate(items[..|items| - 1], name, hash, cur');
        }
      } else {
        FindTells(items[..|items| - 1], name, hash);
      }
    }
  }

  /**
    * The slip of the cursor: a suffix of the name is found, but the newest candidate of its
    * hash and size is a different name, so that the comparison that succeeded was a later one.
    */
  ghost predicate Slips(table: seq<seq<Item>>, ls: seq<Label>, compress: bool)
    requires |table| == BUCKETS
  {
    && compress && var h := Search(table, ls, 0);
    && h.HitAt? && var name := Wire(ls[h.level..]);
    var n := Newest(table[Hash(name) % BUCKETS], name, Hash(name));
    n.Some? && !SameFold(Wire(n.value.ls), name)
  }

  lemma {:induction false} SearchLooks(table: seq<seq<Item>>, ls: seq<Label>, k: nat)
    requires |table| == BUCKETS && k <= |ls|
    ensures var h := Search(table, ls, k); h.HitAt? ==> Lookup(table, Wire(ls[h.level..])) == Some(h.item)
    decreases |ls| - k
  {
    hide Lookup, Wire;
    if k < |ls| && Lookup(table, Wire(ls[k..])).None? {
      SearchLooks(table, ls, k + 1);
    }
  }

  lemma WireStart(ls: seq<Label>)
    requires ls != []
    ensures Wire(ls) != [] && Wire(ls)[0] != 0
  {
    WireHead(ls);
  }

  lemma SameEncoding(x: seq<Label>, y: seq<Label>)
    ensures SameFold(Wire(x), Wire(y)) <==> SameLabels(x, y)
  {
    if SameLabels(x, y) {
      SameLabelsSameWire(x, y);
    } else if SameFold(Wire(x), Wire(y)) {
      SameWireSameLabels(x, y);
    }
  }

  lemma SameRejoined(ls: seq<Label>, k: nat, tail: seq<Label>)
    requires k <= |ls|
    ensures SameLabels(ls[..k] + tail, ls) <==> SameLabels(tail, ls[k..])
  {
    var x := ls[..k] + tail;
    if SameLabels(x, ls) {
      forall i | 0 <= i < |tail| ensures SameFold(tail[i], ls[k..][i]) {
        assert SameFold(x[k + i], ls[k + i]);
      }
    }
    if SameLabels(tail, ls[k..]) {
      forall i | 0 <= i < |x| ensures SameFold(x[i], ls[i]) {
        if i >= k {
          assert SameFold(tail[i - k], ls[k..][i - k]);
        }
      }
    }
  }

  /** What comes back for a name is the name, up to case, exactly when the search does not slip. */
  lemma ReadBackTells(st: State, ls: seq<Label>, compress: bool)
    requires |st.table| == BUCKETS
    ensures SameLabels(ReadBack(st, ls, compress), ls) <==> !Slips(st.table, ls, compress)
  {
    hide SameLabels, SameFold, Wire, Hash, Search, FindIn, Newest;
    var (k, h) := Split(st, ls, compress);
    SameRejoined(ls, k, Tail(h));
    if h.HitAt? {
      SearchLooks(st.table, ls, 0);
      var name := Wire(ls[k..]);
      WireStart(ls[k..]);
      FindTells(st.table[Hash(name) % BUCKETS], name, Hash(name));
      SameEncoding(h.item.ls, ls[k..]);
    } else {
      assert ls[k..] == [];
      NoLabels();
    }
  }

  // ----- Runs -----

  datatype Op =
    | OpName(ls: seq<Label>, compress: bool)
    | OpData(data: bytes)
    | OpPatch(v: uint16, pos: nat)

  function Apply(st: State, op: Op): (st': State)
    requires |st.table| == BUCKETS
    ensures |st'.table| == BUCKETS
  {
    match op
    case OpName(ls, compress) => WriteName(st, ls, compress)
    case OpData(data) => WriteData(st, data)
    case OpPatch(v, pos) => Patch16(st, v, pos)
  }

  function Run(ops: seq<Op>): (st: State)
    ensures |st.table| == BUCKETS
  {
    if ops == [] then Fresh() else Apply(Run(ops[..|ops| - 1]), ops[|ops| - 1])
  }

  /** The length of the message when operation `i` starts. */
  function Before(ops: seq<Op>, i: nat): nat
    requires i <= |ops|
  {
    |Run(ops[..i]).buf|
  }

  /** Names are encodable, and patches touch no name. */
  ghost predicate GoodOp(ops: seq<Op>, i: nat)
    requires i < |ops|
  {
    match ops[i]
    case OpName(ls, _) => FitsName(ls)
    case OpData(_) => true
    case OpPatch(_, pos) =>
      forall j :: 0 <= j < i && ops[j].OpName? ==> pos + 2 <= Before(ops, j) || Before(ops, j + 1) <= pos
  }

  ghost predicate GoodRun(ops: seq<Op>) {
    forall i :: 0 <= i < |ops| ==> GoodOp(ops, i)
  }

  lemma RunStep(ops: seq<Op>, n: nat)
    requires n < |ops|
    ensures Run(ops[..n + 1]) == Apply(Run(ops[..n]), ops[n])
  {
    assert ops[..n + 1][..n] == ops[..n];
  }

  lemma RunStart(ops: seq<Op>)
    ensures Run(ops[..0]) == Fresh() && Inv(Fresh())
  {
  }

  lemma MarksGrow(st: State, op: Op, p: nat)
    requires |st.table| == BUCKETS && |st.mask| == |st.buf|
    ensures var st' := Apply(st, op);
            |st'.mask| == |st'.buf| && (p < |st'.mask| && st'.mask[p] ==>
              (p < |st.mask| && st.mask[p]) || (op.OpName? && |st.buf| <= p))
  {
  }

  /** Only the octets of names are marked. */
  lemma {:induction false} MarksAreNames(ops: seq<Op>, n: nat, p: nat)
    requires n <= |ops| && |Run(ops[..n]).mask| == |Run(ops[..n]).buf|
    requires p < |Run(ops[..n]).buf| && Run(ops[..n]).mask[p]
    requires forall i :: 0 <= i <= n ==> Inv(Run(ops[..i]))
    ensures exists j :: 0 <= j < n && ops[j].OpName? && Before(ops, j) <= p < Before(ops, j + 1)
  {
    hide Run, WriteName;
    RunStart(ops);
    if n > 0 {
      RunStep(ops, n - 1);
      MarksGrow(Run(ops[..n - 1]), ops[n - 1], p);
      if p < Before(ops, n - 1) && Run(ops[..n - 1]).mask[p] {
        MarksAreNames(ops, n - 1, p);
      } else {
        assert ops[n - 1].OpName? && Before(ops, n - 1) <= p < Before(ops, n);
      }
    }
  }

  /** From one state of a run to the next the invariant holds and no name is harmed. */
  ghost predicate StepOk(s: State, s': State) {
    Inv(s) && Inv(s') && Keeps(s.buf, s.mask, s'.buf, s'.mask)
  }

  lemma PatchStepOk(ops: seq<Op>, n: nat)
    requires n < |ops| && ops[n].OpPatch? && GoodOp(ops, n)
    requires forall i :: 0 <= i <= n ==> Inv(Run(ops[..i]))
    ensures StepOk(Run(ops[..n]), Apply(Run(ops[..n]), ops[n]))
  {
    hide Run;
    var st, pos := Run(ops[..n]), ops[n].pos;
    forall p | pos <= p < pos + 2 && p < |st.buf|
      ensures !st.mask[p]
    {
      if st.mask[p] {
        MarksAreNames(ops, n, p);
      }
    }
    PatchKeeps(st, ops[n].v, pos);
  }

  lemma {:induction false} RunInvariant(ops: seq<Op>, n: nat)
    requires n <= |ops| && GoodRun(ops)
    ensures forall i :: 0 <= i <= n ==> Inv(Run(ops[..i]))
    ensures n > 0 ==> StepOk(Run(ops[..n - 1]), Run(ops[..n]))
  {
    hide Run, Inv, Keeps, GoodOp;
    RunStart(ops);
    if n > 0 {
      RunInvariant(ops, n - 1);
      OneStep(ops, n - 1);
    }
  }

  lemma OneStep(ops: seq<Op>, n: nat)
    requires n < |ops| && GoodRun(ops)
    requires forall i :: 0 <= i <= n ==> Inv(Run(ops[..i]))
    ensures StepOk(Run(ops[..n]), Run(ops[..n + 1]))
  {
    hide Run, Inv, WriteName, WriteData;
    RunStep(ops, n);
    var st := Run(ops[..n]);
    assert GoodOp(ops, n);
    match ops[n]
    case OpName(ls, compress) => WriteNameKeeps(st, ls, compress, NoNuls);
    case OpData(data) => WriteDataKeeps(st, data);
    case OpPatch(_, _) => PatchStepOk(ops, n);
  }

  lemma {:induction false} NameSurvives(ops: seq<Op>, m: nat, n: nat, pos: nat, ls: seq<Label>)
    requires m <= n <= |ops| && GoodRun(ops)
    requires Inv(Run(ops[..m])) && At(Run(ops[..m]).buf, Run(ops[..m]).mask, pos, pos, ls)
    ensures Inv(Run(ops[..n])) && At(Run(ops[..n]).buf, Run(ops[..n]).mask, pos, pos, ls)
    ensures Stop(Run(ops[..n]).buf, pos) == Stop(Run(ops[..m]).buf, pos)
    decreases n - m
  {
    hide Run, At, Stop, ItemOk;
    if m < n {
      NameSurvives(ops, m, n - 1, pos, ls);
      RunInvariant(ops, n);
      var s, s' := Run(ops[..n - 1]), Run(ops[..n]);
      AtStable(s.buf, s.mask, s'.buf, s'.mask, pos, pos, ls);
    }
  }

  ghost predicate SafeNames(sf: Safety, ops: seq<Op>, n: nat)
    requires n <= |ops|
  {
    forall i :: 0 <= i < n && ops[i].OpName? ==> Safe(sf, ops[i].ls)
  }

  lemma {:induction false} RunSafe(sf: Safety, ops: seq<Op>, n: nat)
    requires n <= |ops| && GoodRun(ops) && SafeNames(sf, ops, n)
    ensures SafeTable(sf, Run(ops[..n]).table)
  {
    hide Run, Inv, Safe, WriteName;
    RunStart(ops);
    if n > 0 {
      RunSafe(sf, ops, n - 1);
      RunInvariant(ops, n - 1);
      RunStep(ops, n - 1);
      if ops[n - 1].OpName? {
        assert GoodOp(ops, n - 1);
        WriteNameKeeps(Run(ops[..n - 1]), ops[n - 1].ls, ops[n - 1].compress, sf);
      }
    }
  }

  /**
    * In every run of a fresh renderer a name of the right size reads back from the
    * offset of each write, consuming exactly its encoding, and still does after
    * everything written later. It is the name asked for when that was not compressed,
    * and equal to it up to case exactly when the search for it did not slip, which it never
    * does when the names so far hold no zero octet, or are from a pool in which no two
    * different names share hash and size.
    */
  lemma EveryNameReadsBack(ops: seq<Op>, i: nat, sf: Safety)
    requires GoodRun(ops) && i < |ops| && ops[i].OpName?
    ensures Before(ops, i) <= |Run(ops).buf|
    ensures var d := DecodeName(Run(ops).buf, Before(ops, i));
            && d.Ok? && d.next == Before(ops, i + 1) && |Body(d.ls)| == |Body(ops[i].ls)|
            && (!ops[i].compress ==> d.ls == ops[i].ls)
            && (SameLabels(d.ls, ops[i].ls) <==> !Slips(Run(ops[..i]).table, ops[i].ls, ops[i].compress))
            && (SafeNames(sf, ops, i + 1) ==> SameLabels(d.ls, ops[i].ls))
  {
    hide Run, At, Stop, Decode, ItemOk, WriteName, ReadBack, Safe, SafeTable, SameLabels, Body, Slips;
    RunInvariant(ops, i);
    RunStep(ops, i);
    var st, ls := Run(ops[..i]), ops[i].ls;
    assert GoodOp(ops, i);
    WriteNameKeeps(st, ls, ops[i].compress, sf);
    ReadBackTells(st, ls, ops[i].compress);
    if SafeNames(sf, ops, i + 1) {
      RunSafe(sf, ops, i);
    }
    var back, pos := ReadBack(st, ls, ops[i].compress), |st.buf|;
    NameSurvives(ops, i + 1, |ops|, pos, back);
    assert ops[..|ops|] == ops;
    AtInside(Run(ops).buf, Run(ops).mask, pos, pos, back);
    AtDecodes(Run(ops).buf, Run(ops).mask, pos, pos, back, 0);
  }

  lemma AtInside(data: bytes, mask: seq<bool>, pos: nat, limit: nat, ls: seq<Label>)
    requires |mask| == |data| && At(data, mask, pos, limit, ls)
    ensures pos < |data|
  {
  }
}
