/**
  * Resource record data as lists of typed fields: reading them under a length budget,
  * writing them into the compressed message, and reading back what was written.
  */
module Rdata {
  import opened Octets
  import opened Names
  import opened NameWire
  import C = Compression
  import T = TypeBitmap

  datatype Coding =
    | CName | CNameUncompress | CUint8 | CUint16 | CUint32 | CIPv4 | CIPv6 | CBinary | CByteBinary | CTxt
    | CSized | CWide | CTypes

  datatype Field =
    | NameField(name: Name)
    | U8Field(v8: byte)
    | U16Field(v16: uint16)
    | U32Field(v32: uint32)
    | BytesField(bs: bytes)
    | TxtField(ss: seq<bytes>)
    | TypesField(ts: seq<nat>)

  const RR_A: uint16 := 1
  const RR_NS: uint16 := 2
  const RR_CNAME: uint16 := 5
  const RR_SOA: uint16 := 6
  const RR_PTR: uint16 := 12
  const RR_HINFO: uint16 := 13
  const RR_MX: uint16 := 15
  const RR_TXT: uint16 := 16
  const RR_RP: uint16 := 17
  const RR_AAAA: uint16 := 28
  const RR_SRV: uint16 := 33
  const RR_NAPTR: uint16 := 35
  const RR_DNAME: uint16 := 39
  const RR_OPT: uint16 := 41
  const RR_DS: uint16 := 43
  const RR_RRSIG: uint16 := 46
  const RR_NSEC3: uint16 := 50
  const RR_SPF: uint16 := 99
  const RR_TSIG: uint16 := 250

  /** The fields of each record type in order; the empty list for types not modelled. */
  function Schema(t: uint16): seq<Coding> {
    if t == RR_A then [CIPv4]
    else if t == RR_AAAA then [CIPv6]
    else if t == RR_NS || t == RR_CNAME || t == RR_PTR || t == RR_DNAME then [CName]
    else if t == RR_SOA then [CName, CName, CUint32, CUint32, CUint32, CUint32, CUint32]
    else if t == RR_HINFO then [CByteBinary, CByteBinary]
    else if t == RR_MX then [CUint16, CName]
    else if t == RR_TXT || t == RR_SPF then [CTxt]
    else if t == RR_RP then [CName, CName]
    else if t == RR_SRV then [CUint16, CUint16, CUint16, CNameUncompress]
    else if t == RR_NAPTR then [CUint16, CUint16, CByteBinary, CByteBinary, CByteBinary, CName]
    else if t == RR_OPT then [CBinary]
    else if t == RR_DS then [CUint16, CUint8, CUint8, CBinary]
    else if t == RR_RRSIG then [CUint16, CUint8, CUint8, CUint32, CUint32, CUint32, CUint16, CName, CBinary]
    else if t == RR_NSEC3 then [CUint8, CUint8, CUint16, CSized, CSized, CTypes]
    else if t == RR_TSIG then [CName, CUint16, CUint32, CUint16, CWide, CUint16, CUint16, CWide]
    else []
  }

  // ----- Reading -----

  /** A value with the cursor behind it and the budget that is left. */
  datatype Read<T> = Got(value: T, pos: nat, left: nat) | Bad

  function StringFrom(data: bytes, pos: nat, ll: nat): (r: Read<bytes>)
    requires pos <= |data|
  {
    if pos + 1 > |data| || ll < 1 then Bad
    else
      var l := data[pos];
      if l > ll - 1 || pos + 1 + l > |data| then Bad
      else Got(data[pos + 1..pos + 1 + l], pos + 1 + l, ll - 1 - l)
  }

  function StringsFrom(data: bytes, pos: nat, ll: nat): (r: Read<seq<bytes>>)
    requires pos <= |data|
    decreases ll
  {
    if ll == 0 then Got([], pos, 0)
    else match StringFrom(data, pos, ll)
      case Bad => Bad
      case Got(s, pos', ll') =>
        match StringsFrom(data, pos', ll')
        case Bad => Bad
        case Got(ss, pos'', _) => Got([s] + ss, pos'', 0)
  }

  function BytesFrom(data: bytes, pos: nat, n: nat, ll: nat): Read<bytes>
    requires pos <= |data|
  {
    if pos + n > |data| || ll < n then Bad else Got(data[pos..pos + n], pos + n, ll - n)
  }

  /**
    * Octets behind their own length, as `NSEC3FromWire` reads salt and hash: the length is
    * not held against the budget, which wraps around when it is larger.
    */
  function SizedFrom(data: bytes, pos: nat, ll: nat): Read<bytes>
    requires pos <= |data|
  {
    if pos + 1 > |data| || ll < 1 || pos + 1 + data[pos] > |data| then Bad
    else Got(data[pos + 1..pos + 1 + data[pos]], pos + 1 + data[pos], (ll - 1 - data[pos]) % 0x1_0000)
  }

  /** The same with a length of two octets, as `TSIGFromWire` reads the signature and the other data. */
  function WideFrom(data: bytes, pos: nat, ll: nat): Read<bytes>
    requires pos <= |data|
  {
    if pos + 2 > |data| || ll < 2 then Bad
    else
      var n := Word16(data[pos], data[pos + 1]);
      if pos + 2 + n > |data| then Bad
      else Got(data[pos + 2..pos + 2 + n], pos + 2 + n, (ll - 2 - n) % 0x1_0000)
  }

  /** The rest of the budget as a bitmap of types. */
  function TypesFrom(data: bytes, pos: nat, ll: nat): Read<Field>
    requires pos <= |data|
  {
    if pos + ll > |data| then Bad
    else match T.Decode(data[pos..pos + ll], -1)
      case BadTypes => Bad
      case Types(ts) => Got(TypesField(ts), pos + ll, 0)
  }

  /** One field. Names inside record data are read in lower case. */
  function FieldFrom(data: bytes, pos: nat, c: Coding, ll: nat): Read<Field>
    requires pos <= |data|
  {
    match c
    case CName | CNameUncompress =>
      (match DecodeName(data, pos)
       case Err(_) => Bad
       case Ok(ls, next) =>
         DecodedFits(data, pos);
         FoldLabelsSame(true, ls);
         if ll < next - pos then Bad
         else Got(NameField(FromLabels(FoldLabels(true, ls))), next, ll - (next - pos)))
    case CUint8 =>
      if pos + 1 > |data| || ll < 1 then Bad else Got(U8Field(data[pos]), pos + 1, ll - 1)
    case CUint16 =>
      if pos + 2 > |data| || ll < 2 then Bad else Got(U16Field(Word16(data[pos], data[pos + 1])), pos + 2, ll - 2)
    case CUint32 =>
      if pos + 4 > |data| || ll < 4 then Bad
      else Got(U32Field(Word32(data[pos], data[pos + 1], data[pos + 2], data[pos + 3])), pos + 4, ll - 4)
    case CIPv4 => InField(BytesFrom(data, pos, 4, ll))
    case CIPv6 => InField(BytesFrom(data, pos, 16, ll))
    case CBinary => InField(BytesFrom(data, pos, ll, ll))
    case CByteBinary => InField(StringFrom(data, pos, ll))
    case CSized => InField(SizedFrom(data, pos, ll))
    case CWide => InField(WideFrom(data, pos, ll))
    case CTypes => TypesFrom(data, pos, ll)
    case CTxt =>
      match StringsFrom(data, pos, ll)
      case Bad => Bad
      case Got(ss, pos', ll') => Got(TxtField(ss), pos', ll')
  }

  function InField(r: Read<bytes>): Read<Field> {
    match r
    case Bad => Bad
    case Got(bs, pos, left) => Got(BytesField(bs), pos, left)
  }

  function FieldsFrom(data: bytes, pos: nat, cs: seq<Coding>, ll: nat): (r: Read<seq<Field>>)
    requires pos <= |data|
    ensures r.Got? ==> r.pos <= |data|
    decreases |cs|
  {
    if cs == [] then Got([], pos, ll)
    else match FieldFrom(data, pos, cs[0], ll)
      case Bad => Bad
      case Got(f, pos', ll') =>
        FieldAccounts(data, pos, cs[0], ll);
        match FieldsFrom(data, pos', cs[1..], ll')
        case Bad => Bad
        case Got(fs, pos'', ll'') => Got([f] + fs, pos'', ll'')
  }

  lemma {:induction false} StringsAccount(data: bytes, pos: nat, ll: nat)
    requires pos <= |data|
    ensures var r := StringsFrom(data, pos, ll); r.Got? ==> r.pos <= |data| && r.pos == pos + ll && r.left == 0
    decreases ll
  {
    if ll > 0 && StringFrom(data, pos, ll).Got? {
      var r := StringFrom(data, pos, ll);
      StringsAccount(data, r.pos, r.left);
    }
  }

  /** By how much more than the budget fell the cursor may have moved: whole turns of a word. */
  ghost predicate Accounts(pos: nat, ll: nat, pos': nat, left: nat, exact: bool) {
    pos' + left >= pos + ll && (pos' + left - (pos + ll)) % 0x1_0000 == 0 && (exact ==> pos' + left == pos + ll)
  }

  lemma AccountsTrans(pos: nat, ll: nat, pos1: nat, ll1: nat, pos2: nat, ll2: nat, e: bool, e': bool)
    requires Accounts(pos, ll, pos1, ll1, e) && Accounts(pos1, ll1, pos2, ll2, e')
    ensures Accounts(pos, ll, pos2, ll2, e && e')
  {
  }

  /** Whether reading may take more than the budget holds, which then wraps around. */
  predicate Wraps(c: Coding) {
    c.CSized? || c.CWide?
  }

  /** A budget that wraps is off by one turn. */
  lemma WrapAccounts(pos: nat, ll: nat, n: nat)
    requires ll < 0x1_0000 && n <= 0x1_0001
    ensures Accounts(pos, ll, pos + n, (ll - n) % 0x1_0000, false)
  {
    var left := (ll - n) % 0x1_0000;
    assert left - (ll - n) == 0 || left - (ll - n) == 0x1_0000 || left - (ll - n) == 0x2_0000;
  }

  /** A field that is read moves the cursor by exactly what it takes from the budget, unless that wraps. */
  lemma FieldAccounts(data: bytes, pos: nat, c: Coding, ll: nat)
    requires pos <= |data|
    ensures var r := FieldFrom(data, pos, c, ll);
      r.Got? ==> r.pos <= |data| && (ll < 0x1_0000 ==> r.left < 0x1_0000 && Accounts(pos, ll, r.pos, r.left, !Wraps(c)))
    ensures var r := FieldFrom(data, pos, c, ll); r.Got? && !Wraps(c) ==> r.left <= ll && r.pos + r.left == pos + ll
  {
    hide DecodeName, StringsFrom, T.Decode, Word16, Word32;
    DecodedFits(data, pos);
    StringsAccount(data, pos, ll);
    var r := FieldFrom(data, pos, c, ll);
    if r.Got? && Wraps(c) && ll < 0x1_0000 {
      WrapAccounts(pos, ll, r.pos - pos);
    }
  }

  ghost predicate NoWrap(cs: seq<Coding>) {
    forall i :: 0 <= i < |cs| ==> !Wraps(cs[i])
  }

  lemma {:induction false} FieldsAccount(data: bytes, pos: nat, cs: seq<Coding>, ll: nat)
    requires pos <= |data| && ll < 0x1_0000
    ensures var r := FieldsFrom(data, pos, cs, ll); r.Got? ==> Accounts(pos, ll, r.pos, r.left, NoWrap(cs))
    decreases |cs|
  {
    hide FieldFrom, Accounts;
    if cs == [] {
      AccountsNone(pos, ll, NoWrap(cs));
    } else if FieldFrom(data, pos, cs[0], ll).Got? {
      var r := FieldFrom(data, pos, cs[0], ll);
      FieldAccounts(data, pos, cs[0], ll);
      FieldsAccount(data, r.pos, cs[1..], r.left);
      var s := FieldsFrom(data, r.pos, cs[1..], r.left);
      if s.Got? {
        AccountsTrans(pos, ll, r.pos, r.left, s.pos, s.left, !Wraps(cs[0]), NoWrap(cs[1..]));
        assert NoWrap(cs) <==> !Wraps(cs[0]) && NoWrap(cs[1..]) by {
          assert NoWrap(cs) ==> forall i :: 0 <= i < |cs[1..]| ==> cs[1..][i] == cs[i + 1];
          assert forall i :: 1 <= i < |cs| ==> cs[i] == cs[1..][i - 1];
        }
      }
    }
  }

  lemma AccountsNone(pos: nat, ll: nat, e: bool)
    ensures Accounts(pos, ll, pos, ll, e)
  {
  }

  /** The data of one record; an announced length of zero means there is none. */
  datatype RdataRead = GotData(fields: seq<Field>, next: nat) | NoData(next: nat) | BadData

  function RdataFrom(data: bytes, pos: nat, t: uint16): (r: RdataRead)
    requires pos <= |data|
    ensures !r.BadData? ==> r.next <= |data|
  {
    if pos + 2 > |data| then BadData
    else
      var rdlen := Word16(data[pos], data[pos + 1]);
      if rdlen == 0 then NoData(pos + 2)
      else if Schema(t) == [] then BadData
      else match FieldsFrom(data, pos + 2, Schema(t), rdlen)
        case Bad => BadData
        case Got(fs, pos', left) => if left != 0 then BadData else GotData(fs, pos')
  }

  /** The first field, then the others. */
  lemma FieldsCons(data: bytes, pos: nat, c: Coding, cs: seq<Coding>, ll: nat)
    requires pos <= |data|
    ensures var r, f := FieldsFrom(data, pos, [c] + cs, ll), FieldFrom(data, pos, c, ll);
      r.Got? ==>
        && f.Got? && f.pos <= |data| && var s := FieldsFrom(data, f.pos, cs, f.left);
        && s.Got? && r == Got([f.value] + s.value, s.pos, s.left)
  {
    hide FieldFrom;
    FieldAccounts(data, pos, c, ll);
    assert ([c] + cs)[1..] == cs;
  }

  lemma FieldsNone(data: bytes, pos: nat, ll: nat)
    requires pos <= |data|
    ensures FieldsFrom(data, pos, [], ll) == Got([], pos, ll)
  {
  }

  /** A bitmap takes the whole budget, and is never longer than 256 windows. */
  lemma TypesEnd(data: bytes, pos: nat, ll: nat)
    requires pos <= |data|
    ensures var r := FieldsFrom(data, pos, [CTypes], ll); r.Got? ==> ll <= 8704 && r.pos == pos + ll
  {
    hide T.Decode, FieldsFrom;
    FieldsCons(data, pos, CTypes, [], ll);
    assert [CTypes] + [] == [CTypes];
    var f := FieldFrom(data, pos, CTypes, ll);
    if f.Got? {
      T.DecodeBound(data[pos..pos + ll], -1);
      FieldsNone(data, f.pos, f.left);
    }
  }

  /** In front of what needs a small budget, a sized field cannot wrap. */
  lemma SizedEnd(data: bytes, pos: nat, cs: seq<Coding>, ll: nat, bound: nat)
    requires pos <= |data| && ll < 0x1_0000 && bound + 0x100 < 0x1_0000 - 0x100
    requires forall p, l :: 0 <= p <= |data| && 0 <= l < 0x1_0000 && FieldsFrom(data, p, cs, l).Got? ==>
      l <= bound && FieldsFrom(data, p, cs, l).pos == p + l
    ensures var r := FieldsFrom(data, pos, [CSized] + cs, ll); r.Got? ==> ll <= bound + 0x100 && r.pos == pos + ll
  {
    hide FieldsFrom;
    FieldsCons(data, pos, CSized, cs, ll);
    var f := FieldFrom(data, pos, CSized, ll);
    if f.Got? {
      assert 0 <= f.pos <= |data| && 0 <= f.left < 0x1_0000;
    }
  }

  /** NSEC3 data that is accepted takes exactly its budget: once that has wrapped, no bitmap can use it up. */
  lemma Nsec3Exact(data: bytes, pos: nat, ll: nat)
    requires pos <= |data| && ll < 0x1_0000
    ensures var r := FieldsFrom(data, pos, [CSized, CSized, CTypes], ll); r.Got? ==> r.pos == pos + ll
  {
    hide FieldsFrom;
    forall p, l | 0 <= p <= |data| && 0 <= l < 0x1_0000 && FieldsFrom(data, p, [CTypes], l).Got?
      ensures l <= 8704 && FieldsFrom(data, p, [CTypes], l).pos == p + l
    {
      TypesEnd(data, p, l);
    }
    assert [CSized] + [CTypes] == [CSized, CTypes] && [CSized] + [CSized, CTypes] == [CSized, CSized, CTypes];
    forall p, l | 0 <= p <= |data| && 0 <= l < 0x1_0000 && FieldsFrom(data, p, [CSized, CTypes], l).Got?
      ensures l <= 8960 && FieldsFrom(data, p, [CSized, CTypes], l).pos == p + l
    {
      SizedEnd(data, p, [CTypes], l, 8704);
    }
    SizedEnd(data, pos, [CSized, CTypes], ll, 8960);
  }

  lemma Nsec3Consumes(data: bytes, pos: nat, ll: nat)
    requires pos <= |data| && ll < 0x1_0000
    ensures var r := FieldsFrom(data, pos, Schema(RR_NSEC3), ll); r.Got? ==> r.pos == pos + ll
  {
    hide FieldsFrom;
    var sized := [CSized, CSized, CTypes];
    FieldsCons(data, pos, CUint8, [CUint8, CUint16] + sized, ll);
    assert [CUint8] + ([CUint8, CUint16] + sized) == Schema(RR_NSEC3);
    var f := FieldFrom(data, pos, CUint8, ll);
    if f.Got? {
      FieldsCons(data, f.pos, CUint8, [CUint16] + sized, f.left);
      assert [CUint8] + ([CUint16] + sized) == [CUint8, CUint16] + sized;
      var g := FieldFrom(data, f.pos, CUint8, f.left);
      if g.Got? {
        FieldsCons(data, g.pos, CUint16, sized, g.left);
        var h := FieldFrom(data, g.pos, CUint16, g.left);
        if h.Got? {
          Nsec3Exact(data, h.pos, h.left);
        }
      }
    }
  }

  /** What the fields of TSIG data take on the wire, whatever was announced. */
  function TsigSize(data: bytes, pos: nat, fs: seq<Field>): nat
    requires pos <= |data| && |fs| == 8 && fs[4].BytesField? && fs[7].BytesField?
  {
    DecodedFits(data, pos);
    var d := DecodeName(data, pos);
    (if d.Ok? then d.next - pos else 0) + 16 + |fs[4].bs| + |fs[7].bs|
  }

  /** What a field takes on the wire, when it is read. */
  function Taken(data: bytes, pos: nat, c: Coding, f: Field): nat
    requires pos <= |data|
  {
    match c
    case CName =>
      DecodedFits(data, pos);
      if DecodeName(data, pos).Ok? then DecodeName(data, pos).next - pos else 0
    case CUint16 => 2
    case CUint32 => 4
    case CWide => if f.BytesField? then 2 + |f.bs| else 0
    case _ => 0
  }

  lemma FieldTaken(data: bytes, pos: nat, c: Coding, ll: nat)
    requires pos <= |data| && (c.CName? || c.CUint16? || c.CUint32? || c.CWide?)
    ensures var r := FieldFrom(data, pos, c, ll);
      r.Got? ==> r.pos == pos + Taken(data, pos, c, r.value) && (c.CWide? ==> r.value.BytesField?)
  {
    hide DecodeName, StringsFrom, T.Decode;
    DecodedFits(data, pos);
  }

  lemma TsigTakes(data: bytes, pos: nat, ll: nat)
    requires pos <= |data|
    ensures var r := FieldsFrom(data, pos, Schema(RR_TSIG), ll);
      r.Got? ==>
        |r.value| == 8 && r.value[4].BytesField? && r.value[7].BytesField?
          && r.pos == pos + TsigSize(data, pos, r.value)
  {
    hide FieldsFrom, DecodeName, FieldFrom;
    var r := FieldsFrom(data, pos, Schema(RR_TSIG), ll);
    if r.Got? {
      var mac, other := [CWide, CUint16, CUint16, CWide], [CUint16, CUint16, CWide];
      assert Schema(RR_TSIG) == [CName] + ([CUint16] + ([CUint32] + ([CUint16] + mac)));
      var f0 := FieldsHead(data, pos, CName, [CUint16] + ([CUint32] + ([CUint16] + mac)), ll);
      var f1 := FieldsHead(data, f0.pos, CUint16, [CUint32] + ([CUint16] + mac), f0.left);
      var f2 := FieldsHead(data, f1.pos, CUint32, [CUint16] + mac, f1.left);
      var f3 := FieldsHead(data, f2.pos, CUint16, mac, f2.left);
      TsigEnd(data, f3.pos, f3.left);
    }
  }

  /** From the size of the signature on. */
  lemma TsigEnd(data: bytes, pos: nat, ll: nat)
    requires pos <= |data|
    ensures var r := FieldsFrom(data, pos, [CWide, CUint16, CUint16, CWide], ll);
      r.Got? ==>
        && |r.value| == 4 && r.value[0].BytesField? && r.value[3].BytesField?
        && r.pos == pos + 8 + |r.value[0].bs| + |r.value[3].bs|
  {
    hide FieldsFrom, FieldFrom;
    var cs := [CWide, CUint16, CUint16, CWide];
    if FieldsFrom(data, pos, cs, ll).Got? {
      assert cs == [CWide] + ([CUint16] + ([CUint16] + ([CWide] + [])));
      var f4 := FieldsHead(data, pos, CWide, [CUint16] + ([CUint16] + ([CWide] + [])), ll);
      var f5 := FieldsHead(data, f4.pos, CUint16, [CUint16] + ([CWide] + []), f4.left);
      var f6 := FieldsHead(data, f5.pos, CUint16, [CWide] + [], f5.left);
      var f7 := FieldsHead(data, f6.pos, CWide, [], f6.left);
      FieldsNone(data, f7.pos, f7.left);
    }
  }

  lemma FieldsHead(data: bytes, pos: nat, c: Coding, cs: seq<Coding>, ll: nat) returns (f: Read<Field>)
    requires pos <= |data| && FieldsFrom(data, pos, [c] + cs, ll).Got?
    requires c.CName? || c.CUint16? || c.CUint32? || c.CWide?
    ensures f == FieldFrom(data, pos, c, ll) && f.Got? && f.pos <= |data|
    ensures f.pos == pos + Taken(data, pos, c, f.value) && (c.CWide? ==> f.value.BytesField?)
    ensures var r, s := FieldsFrom(data, pos, [c] + cs, ll), FieldsFrom(data, f.pos, cs, f.left);
      s.Got? && r == Got([f.value] + s.value, s.pos, s.left)
  {
    hide FieldsFrom, FieldFrom, Taken;
    FieldsCons(data, pos, c, cs, ll);
    FieldTaken(data, pos, c, ll);
    f := FieldFrom(data, pos, c, ll);
  }

  /**
    * Accepted record data takes exactly the announced number of octets, for every type but
    * TSIG. TSIG data takes that number up to whole turns of 65536, and exactly that number if
    * and only if what its fields take together stays below 65536.
    */
  lemma RdataConsumesAll(data: bytes, pos: nat, t: uint16)
    requires pos + 2 <= |data|
    ensures var r, n := RdataFrom(data, pos, t), pos + 2 + Word16(data[pos], data[pos + 1]);
      !r.BadData? && t != RR_TSIG ==> r.next == n
    ensures var r, n := RdataFrom(data, pos, RR_TSIG), pos + 2 + Word16(data[pos], data[pos + 1]);
      r.GotData? ==>
        && |r.fields| == 8 && r.fields[4].BytesField? && r.fields[7].BytesField?
        && r.next >= n && (r.next - n) % 0x1_0000 == 0
        && (r.next == n <==> TsigSize(data, pos + 2, r.fields) < 0x1_0000)
  {
    hide FieldsFrom, TsigSize;
    var ll := Word16(data[pos], data[pos + 1]);
    FieldsAccount(data, pos + 2, Schema(t), ll);
    FieldsAccount(data, pos + 2, Schema(RR_TSIG), ll);
    Nsec3Consumes(data, pos + 2, ll);
    TsigTakes(data, pos + 2, ll);
    SchemaWraps(t);
  }

  lemma FieldsGo(data: bytes, pos: nat, c: Coding, cs: seq<Coding>, ll: nat, p: nat, l: nat)
    requires pos <= |data| && p <= |data|
    requires var f := FieldFrom(data, pos, c, ll); f.Got? && f.pos == p && f.left == l
    ensures var r, s := FieldsFrom(data, pos, [c] + cs, ll), FieldsFrom(data, p, cs, l);
      if s.Got? then r.Got? && r.pos == s.pos && r.left == s.left else r.Bad?
  {
    hide FieldFrom;
    assert ([c] + cs)[1..] == cs;
  }

  /** TSIG data that announces 11 octets: the root name, zeros, and a signature longer than what is left. */
  function LongTsig(mac: bytes, other: bytes): bytes {
    [0, 11, 0, 0, 0, 0, 0, 0, 0, 0, 0] + U16(|mac| % 0x1_0000) + mac + [0, 0, 0, 0] + U16(|other| % 0x1_0000) + other
  }

  lemma LongTsigParts(mac: bytes, other: bytes)
    requires |mac| == 0xfff6 && |other| == 4
    ensures var d := LongTsig(mac, other);
      && |d| == 0x1_000d && d[0] == 0 && d[1] == 11 && (forall i :: 2 <= i < 11 ==> d[i] == 0)
      && d[11..13 + |mac|] == U16(|mac| % 0x1_0000) + mac
      && d[0x1_0003] == d[0x1_0004] == d[0x1_0005] == d[0x1_0006] == 0
      && d[0x1_0007..0x1_000d] == U16(|other| % 0x1_0000) + other
  {
    hide U16;
  }

  /** It is accepted, and takes 65536 octets more than it announces. */
  lemma TsigOvertakes(mac: bytes, other: bytes)
    requires |mac| == 0xfff6 && |other| == 4
    ensures |LongTsig(mac, other)| >= 2 && Word16(LongTsig(mac, other)[0], LongTsig(mac, other)[1]) == 11
    ensures var r := RdataFrom(LongTsig(mac, other), 0, RR_TSIG); r.GotData? && r.next == 2 + 11 + 0x1_0000
  {
    hide LongTsig, WideFrom, FieldsFrom;
    var d := LongTsig(mac, other);
    LongTsigParts(mac, other);
    WideSkips(d, 11, mac, 2);
    WideSkips(d, 0x1_0007, other, 6);
    assert DecodeName(d, 2) == Ok([], 3);
    var end := [CUint16] + ([CUint16] + ([CWide] + []));
    assert Schema(RR_TSIG) == [CName] + ([CUint16] + ([CUint32] + ([CUint16] + ([CWide] + end))));
    FieldsNone(d, 0x1_000d, 0);
    FieldsGo(d, 0x1_0007, CWide, [], 6, 0x1_000d, 0);
    FieldsGo(d, 0x1_0005, CUint16, [CWide] + [], 8, 0x1_0007, 6);
    FieldsGo(d, 0x1_0003, CUint16, [CUint16] + ([CWide] + []), 10, 0x1_0005, 8);
    FieldsGo(d, 11, CWide, end, 2, 0x1_0003, 10);
    FieldsGo(d, 9, CUint16, [CWide] + end, 4, 11, 2);
    FieldsGo(d, 5, CUint32, [CUint16] + ([CWide] + end), 8, 9, 4);
    FieldsGo(d, 3, CUint16, [CUint32] + ([CUint16] + ([CWide] + end)), 10, 5, 8);
    FieldsGo(d, 2, CName, [CUint16] + ([CUint32] + ([CUint16] + ([CWide] + end))), 11, 3, 10);
  }

  lemma WideSkips(data: bytes, pos: nat, bs: bytes, ll: nat)
    requires |bs| < 0x1_0000 && 2 <= ll && pos + |bs| + 2 <= |data|
    requires data[pos..pos + |bs| + 2] == U16(|bs| % 0x1_0000) + bs
    ensures WideFrom(data, pos, ll) == Got(bs, pos + |bs| + 2, (ll - 2 - |bs|) % 0x1_0000)
  {
    hide U16, Word16;
    Uint16ReadsBack(|bs|);
    Halves(data, pos, 2, U16(|bs| % 0x1_0000), bs);
    assert data[pos] == data[pos..pos + 2][0] && data[pos + 1] == data[pos..pos + 2][1];
    SmallMod(|bs|, |bs|);
  }

  lemma SchemaWraps(t: uint16)
    ensures t != RR_NSEC3 && t != RR_TSIG ==> NoWrap(Schema(t))
  {
  }

  // ----- Writing -----

  /** The kind of value each coding is written from; a name is always well-formed. */
  ghost predicate Shape(c: Coding, f: Field) {
    match c
    case CName | CNameUncompress => f.NameField? && Valid(f.name)
    case CUint8 => f.U8Field?
    case CUint16 => f.U16Field?
    case CUint32 => f.U32Field?
    case CIPv4 | CIPv6 | CBinary | CByteBinary | CSized | CWide => f.BytesField?
    case CTxt => f.TxtField?
    case CTypes => f.TypesField? && TypesOk(f.ts)
  }

  /** The lists of types that have a bitmap; for the empty one `encodeNSEC3Bytes` panics. */
  ghost predicate TypesOk(ts: seq<nat>) {
    ts != [] && (forall i :: 0 <= i < |ts| ==> ts[i] < 0x1_0000) && T.Increasing(ts)
  }

  /** A character string: its length, kept to one octet, and its octets. */
  function StringOut(s: bytes): (r: bytes)
    ensures |r| == |s| + 1
  {
    [|s| % 0x100] + s
  }

  function StringsOut(ss: seq<bytes>): bytes {
    if ss == [] then [] else StringOut(ss[0]) + StringsOut(ss[1..])
  }

  ghost function FieldOut(c: Coding, f: Field): bytes
    requires !f.NameField? && (f.TypesField? ==> TypesOk(f.ts))
  {
    match f
    case U8Field(v) => [v]
    case U16Field(v) => U16(v)
    case U32Field(v) => U32(v)
    case BytesField(bs) =>
      if c.CByteBinary? || c.CSized? then StringOut(bs) else if c.CWide? then U16(|bs| % 0x1_0000) + bs else bs
    case TxtField(ss) => StringsOut(ss)
    case TypesField(ts) => T.Encoding(ts)
  }

  ghost function RendField(st: C.State, c: Coding, f: Field): (st': C.State)
    requires |st.table| == C.BUCKETS && Shape(c, f)
    ensures |st'.table| == C.BUCKETS
  {
    if f.NameField? then C.WriteName(st, Labels(f.name), c.CName?) else C.WriteData(st, FieldOut(c, f))
  }

  ghost predicate Shapes(cs: seq<Coding>, fs: seq<Field>) {
    |cs| == |fs| && forall i :: 0 <= i < |cs| ==> Shape(cs[i], fs[i])
  }

  ghost function RendFields(st: C.State, cs: seq<Coding>, fs: seq<Field>): (st': C.State)
    requires |st.table| == C.BUCKETS && Shapes(cs, fs)
    ensures |st'.table| == C.BUCKETS
    decreases |cs|
  {
    if cs == [] then st else RendFields(RendField(st, cs[0], fs[0]), cs[1..], fs[1..])
  }

  // ----- Reading back -----

  /**
    * The message only grew from `s` to `s'`, except that the two octets at `hole` may
    * have been patched; a negative hole is none.
    */
  ghost predicate Ext(s: C.State, s': C.State, hole: int) {
    && C.Keeps(s.buf, s.mask, s'.buf, s'.mask)
    && forall i :: 0 <= i < |s.buf| && !(hole <= i < hole + 2) ==> s'.buf[i] == s.buf[i]
  }

  lemma ExtTrans(s: C.State, s1: C.State, s2: C.State, hole: int)
    requires Ext(s, s1, hole) && Ext(s1, s2, hole)
    ensures Ext(s, s2, hole)
  {
  }

  lemma ExtWeaken(s: C.State, s': C.State, hole: int)
    requires Ext(s, s', -2)
    ensures Ext(s, s', hole)
  {
  }

  /** Values that the wire format can carry. */
  ghost predicate FieldOk(c: Coding, f: Field) {
    && Shape(c, f)
    && match c
       case CIPv4 => |f.bs| == 4
       case CIPv6 => |f.bs| == 16
       case CByteBinary | CSized => |f.bs| <= 255
       case CWide => |f.bs| < 0x1_0000
       case CTxt => forall i :: 0 <= i < |f.ss| ==> |f.ss[i]| <= 255
       case _ => true
  }

  ghost predicate FieldsOk(cs: seq<Coding>, fs: seq<Field>) {
    |cs| == |fs| && forall i :: 0 <= i < |cs| ==> FieldOk(cs[i], fs[i])
  }

  /** Equality of fields up to the case of names. */
  ghost predicate SameField(f: Field, g: Field) {
    if f.NameField? then g.NameField? && SameName(f.name, g.name) else f == g
  }

  ghost predicate SameFields(fs: seq<Field>, gs: seq<Field>) {
    |fs| == |gs| && forall i :: 0 <= i < |fs| ==> SameField(fs[i], gs[i])
  }

  /** Codings that take whatever the budget leaves. */
  predicate Greedy(c: Coding) {
    c.CBinary? || c.CTxt? || c.CTypes?
  }

  ghost predicate Ready(sf: C.Safety, st: C.State) {
    C.Inv(st) && C.SafeTable(sf, st.table)
  }

  /** A field whose name, if it is one, is safe to compress. */
  ghost predicate FieldSafe(sf: C.Safety, f: Field) {
    f.NameField? && Valid(f.name) ==> C.Safe(sf, Labels(f.name))
  }

  ghost predicate FieldsSafe(sf: C.Safety, fs: seq<Field>) {
    forall i :: 0 <= i < |fs| ==> FieldSafe(sf, fs[i])
  }

  lemma RendFieldKeeps(sf: C.Safety, st: C.State, c: Coding, f: Field)
    requires Ready(sf, st) && FieldOk(c, f) && FieldSafe(sf, f)
    ensures Ready(sf, RendField(st, c, f)) && Ext(st, RendField(st, c, f), -2)
  {
    hide C.At, C.Stop, C.ItemOk, C.Safe, Body, FieldOut;
    if f.NameField? {
      C.WriteNameKeeps(st, Labels(f.name), c.CName?, sf);
      var (k, h) := C.Split(st, Labels(f.name), c.CName?);
    } else {
      C.WriteDataKeeps(st, FieldOut(c, f));
    }
  }

  /** A written name reads back later, up to case, and the cursor ends where writing did. */
  lemma NameReads(sf: C.Safety, st: C.State, ls: seq<Label>, compress: bool, s2: C.State, hole: int)
    requires Ready(sf, st) && FitsName(ls) && C.Safe(sf, ls)
    requires Ext(C.WriteName(st, ls, compress), s2, hole)
    ensures |st.buf| <= |s2.buf|
    ensures var d := DecodeName(s2.buf, |st.buf|);
            d.Ok? && SameLabels(d.ls, ls) && d.next == |C.WriteName(st, ls, compress).buf|
  {
    hide C.At, C.Stop, C.TableOk, C.Safe, Body, Decode, SameLabels, C.Split, C.SafeTable, C.WriteName, C.ReadBack;
    StateSize(st);
    var s1, back := C.WriteName(st, ls, compress), C.ReadBack(st, ls, compress);
    C.WriteNameKeeps(st, ls, compress, sf);
    C.AtStable(s1.buf, s1.mask, s2.buf, s2.mask, |st.buf|, |st.buf|, back);
    C.AtDecodes(s2.buf, s2.mask, |st.buf|, |st.buf|, back, 0);
  }

  /** Written data is still there later, at the same place. */
  lemma DataReads(st: C.State, data: bytes, s2: C.State, hole: int)
    requires |st.mask| == |st.buf| && Ext(C.WriteData(st, data), s2, hole)
    requires hole + 2 <= |st.buf| || |st.buf| + |data| <= hole
    ensures |st.buf| + |data| <= |s2.buf| && s2.buf[|st.buf|..|st.buf| + |data|] == data
  {
    var s1 := C.WriteData(st, data);
    forall i | 0 <= i < |data|
      ensures s2.buf[|st.buf| + i] == data[i]
    {
      assert s1.buf[|st.buf| + i] == data[i];
    }
  }

  lemma StringReads(data: bytes, pos: nat, s: bytes, ll: nat)
    requires |s| <= 255 && |s| + 1 <= ll && pos + |s| + 1 <= |data| && data[pos..pos + |s| + 1] == StringOut(s)
    ensures StringFrom(data, pos, ll) == Got(s, pos + |s| + 1, ll - |s| - 1)
  {
    var w := data[pos..pos + |s| + 1];
    assert data[pos] == w[0] && data[pos + 1..pos + 1 + |s|] == w[1..];
  }

  lemma Halves(data: bytes, pos: nat, m: nat, x: bytes, y: bytes)
    requires m == |x| && pos + |x| + |y| <= |data| && data[pos..pos + |x| + |y|] == x + y
    ensures data[pos..pos + m] == x && data[pos + m..pos + m + |y|] == y
  {
    var w := data[pos..pos + |x| + |y|];
    assert data[pos..pos + m] == w[..m] && data[pos + m..pos + m + |y|] == w[m..];
  }

  lemma {:induction false} StringsRead(data: bytes, pos: nat, ss: seq<bytes>)
    requires forall i :: 0 <= i < |ss| ==> |ss[i]| <= 255
    requires var n := |StringsOut(ss)|; pos + n <= |data| && data[pos..pos + n] == StringsOut(ss)
    ensures StringsFrom(data, pos, |StringsOut(ss)|) == Got(ss, pos + |StringsOut(ss)|, 0)
    decreases |ss|
  {
    hide StringOut, StringFrom;
    if ss != [] {
      var n, m := |StringsOut(ss)|, |ss[0]| + 1;
      Halves(data, pos, m, StringOut(ss[0]), StringsOut(ss[1..]));
      StringReads(data, pos, ss[0], n);
      StringsRead(data, pos + m, ss[1..]);
      assert [ss[0]] + ss[1..] == ss;
    }
  }

  lemma WideReads(data: bytes, pos: nat, bs: bytes, ll: nat)
    requires |bs| + 2 <= ll < 0x1_0000 && pos + |bs| + 2 <= |data|
    requires data[pos..pos + |bs| + 2] == U16(|bs| % 0x1_0000) + bs
    ensures WideFrom(data, pos, ll) == Got(bs, pos + |bs| + 2, ll - |bs| - 2)
  {
    WideSkips(data, pos, bs, ll);
    SmallMod(|bs|, ll - 2 - |bs|);
  }

  lemma SmallMod(x: nat, y: nat)
    requires x < 0x1_0000 && y < 0x1_0000
    ensures x % 0x1_0000 == x && y % 0x1_0000 == y
  {
  }

  /** A word that was written reads back. */
  lemma WordReads(data: bytes, pos: nat, v: uint16)
    requires pos + 2 <= |data| && data[pos..pos + 2] == U16(v)
    ensures Word16(data[pos], data[pos + 1]) == v
  {
    var w := data[pos..pos + 2];
    assert data[pos] == w[0] && data[pos + 1] == w[1];
    Uint16ReadsBack(v);
  }

  lemma LongWordReads(data: bytes, pos: nat, v: uint32)
    requires pos + 4 <= |data| && data[pos..pos + 4] == U32(v)
    ensures Word32(data[pos], data[pos + 1], data[pos + 2], data[pos + 3]) == v
  {
    var w := data[pos..pos + 4];
    assert data[pos] == w[0] && data[pos + 1] == w[1] && data[pos + 2] == w[2] && data[pos + 3] == w[3];
    Uint32ReadsBack(v);
  }

  /** Octets written for a field that is not a name read back as that field. */
  lemma PlainReads(data: bytes, pos: nat, c: Coding, f: Field, ll: nat)
    requires FieldOk(c, f) && !f.NameField?
    requires var n := |FieldOut(c, f)|; pos + n <= |data| && data[pos..pos + n] == FieldOut(c, f)
    requires |FieldOut(c, f)| <= ll < 0x1_0000 && (Greedy(c) ==> |FieldOut(c, f)| == ll)
    ensures FieldFrom(data, pos, c, ll) == Got(f, pos + |FieldOut(c, f)|, ll - |FieldOut(c, f)|)
  {
    hide DecodeName, T.Decode, T.Encoding, U16, U32, Word16, Word32, WideFrom, StringsOut, StringOut, StringFrom,
      StringsFrom;
    var w := data[pos..pos + |FieldOut(c, f)|];
    match c {
      case CUint8 => assert data[pos] == w[0];
      case CUint16 => WordReads(data, pos, f.v16);
      case CUint32 => LongWordReads(data, pos, f.v32);
      case CByteBinary => StringReads(data, pos, f.bs, ll);
      case CSized => SizedReads(data, pos, f.bs, ll);
      case CWide => WideReads(data, pos, f.bs, ll);
      case CTypes => assert w == data[pos..pos + ll];
      case CTxt => StringsRead(data, pos, f.ss);
      case _ =>
    }
  }

  lemma SizedReads(data: bytes, pos: nat, bs: bytes, ll: nat)
    requires |bs| <= 255 && |bs| + 1 <= ll < 0x1_0000 && pos + |bs| + 1 <= |data|
    requires data[pos..pos + |bs| + 1] == StringOut(bs)
    ensures SizedFrom(data, pos, ll) == Got(bs, pos + |bs| + 1, ll - |bs| - 1)
  {
    StringReads(data, pos, bs, ll);
    SmallMod(|bs|, ll - 1 - |bs|);
  }

  /** What one field writes, it reads back later. */
  lemma FieldReads(sf: C.Safety, st: C.State, c: Coding, f: Field, s2: C.State, hole: int, ll: nat)
    requires Ready(sf, st) && FieldOk(c, f) && FieldSafe(sf, f) && Ext(RendField(st, c, f), s2, hole)
    requires hole + 2 <= |st.buf|
    requires var n := |RendField(st, c, f).buf| - |st.buf|; n <= ll < 0x1_0000 && (Greedy(c) ==> n == ll)
    ensures |st.buf| <= |RendField(st, c, f).buf| <= |s2.buf|
    ensures var r := FieldFrom(s2.buf, |st.buf|, c, ll);
            && r.Got? && SameField(r.value, f) && r.pos == |RendField(st, c, f).buf|
            && r.left == ll - (|RendField(st, c, f).buf| - |st.buf|)
  {
    hide DecodeName, C.WriteName, SameLabels, C.Safe, FitsName, C.Inv, StringsFrom, StringFrom, FieldOut, FoldLabels;
    RendFieldKeeps(sf, st, c, f);
    if f.NameField? {
      NameReads(sf, st, Labels(f.name), c.CName?, s2, hole);
      var d := DecodeName(s2.buf, |st.buf|);
      FoldLabelsSame(true, d.ls);
      DecodedFits(s2.buf, |st.buf|);
      LabelsOfEncoding(FoldLabels(true, d.ls));
      C.SameLabelsThrough(FoldLabels(true, d.ls), d.ls, Labels(f.name));
    } else {
      StateSize(st);
      DataReads(st, FieldOut(c, f), s2, hole);
      PlainReads(s2.buf, |st.buf|, c, f, ll);
    }
  }

  lemma StateSize(st: C.State)
    requires C.Inv(st)
    ensures |st.mask| == |st.buf| && |st.table| == C.BUCKETS
  {
  }

  ghost predicate GreedyLast(cs: seq<Coding>) {
    forall i :: 0 <= i < |cs| - 1 ==> !Greedy(cs[i])
  }

  lemma {:induction false} RendFieldsKeep(sf: C.Safety, st: C.State, cs: seq<Coding>, fs: seq<Field>)
    requires Ready(sf, st) && FieldsOk(cs, fs) && FieldsSafe(sf, fs)
    ensures Ready(sf, RendFields(st, cs, fs)) && Ext(st, RendFields(st, cs, fs), -2)
    decreases |cs|
  {
    hide RendField, C.ItemOk, C.SafeTable, FitsName, C.Safe;
    if cs != [] {
      RendFieldKeeps(sf, st, cs[0], fs[0]);
      var s1 := RendField(st, cs[0], fs[0]);
      RendFieldsKeep(sf, s1, cs[1..], fs[1..]);
      ExtTrans(st, s1, RendFields(st, cs, fs), -2);
    }
  }

  /** What all fields of a record write, they read back later under the exact budget. */
  lemma {:induction false} FieldsRead(sf: C.Safety, st: C.State, cs: seq<Coding>, fs: seq<Field>, s2: C.State,
                                      hole: int)
    requires Ready(sf, st) && FieldsOk(cs, fs) && FieldsSafe(sf, fs) && GreedyLast(cs)
    requires Ext(RendFields(st, cs, fs), s2, hole) && hole + 2 <= |st.buf|
    requires |RendFields(st, cs, fs).buf| - |st.buf| < 0x1_0000
    ensures |st.buf| <= |RendFields(st, cs, fs).buf| <= |s2.buf|
    ensures var r := FieldsFrom(s2.buf, |st.buf|, cs, |RendFields(st, cs, fs).buf| - |st.buf|);
            r.Got? && SameFields(r.value, fs) && r.pos == |RendFields(st, cs, fs).buf| && r.left == 0
    decreases |cs|
  {
    hide RendField, C.ItemOk, C.SafeTable, FieldFrom, FitsName, C.Safe, SameField;
    var sn := RendFields(st, cs, fs);
    if cs != [] {
      RendFieldKeeps(sf, st, cs[0], fs[0]);
      var s1 := RendField(st, cs[0], fs[0]);
      RendFieldsKeep(sf, s1, cs[1..], fs[1..]);
      ExtWeaken(s1, sn, hole);
      ExtTrans(s1, sn, s2, hole);
      FieldReads(sf, st, cs[0], fs[0], s2, hole, |sn.buf| - |st.buf|);
      FieldsRead(sf, s1, cs[1..], fs[1..], s2, hole);
    }
  }

  /** The size of a field without compression. */
  ghost function FieldSize(c: Coding, f: Field): nat
    requires Shape(c, f)
  {
    if f.NameField? then |f.name.raw| else |FieldOut(c, f)|
  }

  ghost function FieldsSize(cs: seq<Coding>, fs: seq<Field>): nat
    requires FieldsOk(cs, fs)
    decreases |cs|
  {
    if cs == [] then 0 else FieldSize(cs[0], fs[0]) + FieldsSize(cs[1..], fs[1..])
  }

  /** Compression only shortens, and never to nothing. */
  lemma FieldShrinks(sf: C.Safety, st: C.State, c: Coding, f: Field)
    requires Ready(sf, st) && FieldOk(c, f) && FieldSafe(sf, f)
    ensures var n := |RendField(st, c, f).buf| - |st.buf|; n <= FieldSize(c, f) && (FieldSize(c, f) > 0 ==> n > 0)
  {
    if f.NameField? {
      var (k, h) := C.Split(st, Labels(f.name), c.CName?);
      BodySplit(Labels(f.name), k);
      if h.HitAt? {
        BodyLength(Labels(f.name)[k..]);
      }
    }
  }

  lemma {:induction false} FieldsShrink(sf: C.Safety, st: C.State, cs: seq<Coding>, fs: seq<Field>)
    requires Ready(sf, st) && FieldsOk(cs, fs) && FieldsSafe(sf, fs)
    ensures var n := |RendFields(st, cs, fs).buf| - |st.buf|;
            n <= FieldsSize(cs, fs) && (FieldsSize(cs, fs) > 0 ==> n > 0)
    decreases |cs|
  {
    hide RendField, FieldSize, C.ItemOk, FitsName, C.Safe;
    if cs != [] {
      RendFieldKeeps(sf, st, cs[0], fs[0]);
      FieldShrinks(sf, st, cs[0], fs[0]);
      var s1 := RendField(st, cs[0], fs[0]);
      FieldsShrink(sf, s1, cs[1..], fs[1..]);
      RendFieldsKeep(sf, s1, cs[1..], fs[1..]);
    }
  }
}
