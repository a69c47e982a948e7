/**
  * Reading names from a message: the octet-at-a-time decoder with compression
  * pointers, proved equal to a decoder that recurses over labels.
  */
module NameWire {
  import opened Octets
  import opened Names

  // ----- The read cursor -----

  class InputBuffer {
    var data: bytes
    var pos: nat

    ghost predicate Valid()
      reads this
    {
      pos <= |data|
    }

    constructor (bs: bytes)
      ensures Valid() && data == bs && pos == 0
    {
      data, pos := bs, 0;
    }

    method SetData(bs: bytes)
      modifies this
      ensures Valid() && data == bs && pos == 0
    {
      data, pos := bs, 0;
    }

    /** Refuses to move past the end, and then leaves the cursor alone. */
    method SetPosition(p: nat) returns (ok: bool)
      requires Valid()
      modifies this`pos
      ensures Valid() && ok == (p <= |data|)
      ensures pos == if ok then p else old(pos)
    {
      ok := p <= |data|;
      if ok {
        pos := p;
      }
    }

    /** At the end of the data this yields zero and stays where it is. */
    method ReadUint8() returns (ok: bool, b: byte)
      requires Valid()
      modifies this`pos
      ensures Valid() && ok == (old(pos) < |data|)
      ensures ok ==> b == data[old(pos)] && pos == old(pos) + 1
      ensures !ok ==> b == 0 && pos == old(pos)
    {
      if pos + 1 > |data| {
        return false, 0;
      }
      ok, b := true, data[pos];
      pos := pos + 1;
    }

    method ReadUint16() returns (ok: bool, v: uint16)
      requires Valid()
      modifies this`pos
      ensures Valid() && ok == (old(pos) + 2 <= |data|)
      ensures ok ==> v == Word16(data[old(pos)], data[old(pos) + 1]) && pos == old(pos) + 2
      ensures !ok ==> v == 0 && pos == old(pos)
    {
      if pos + 2 > |data| {
        return false, 0;
      }
      ok, v := true, Word16(data[pos], data[pos + 1]);
      pos := pos + 2;
    }

    method ReadUint32() returns (ok: bool, v: uint32)
      requires Valid()
      modifies this`pos
      ensures Valid() && ok == (old(pos) + 4 <= |data|)
      ensures ok ==> v == Word32(data[old(pos)], data[old(pos) + 1], data[old(pos) + 2], data[old(pos) + 3])
                     && pos == old(pos) + 4
      ensures !ok ==> v == 0 && pos == old(pos)
    {
      if pos + 4 > |data| {
        return false, 0;
      }
      ok, v := true, Word32(data[pos], data[pos + 1], data[pos + 2], data[pos + 3]);
      pos := pos + 4;
    }

    method ReadBytes(length: nat) returns (ok: bool, bs: bytes)
      requires Valid()
      modifies this`pos
      ensures Valid() && ok == (old(pos) + length <= |data|)
      ensures ok ==> bs == data[old(pos)..old(pos) + length] && pos == old(pos) + length
      ensures !ok ==> bs == [] && pos == old(pos)
    {
      if pos + length > |data| {
        return false, [];
      }
      ok, bs := true, data[pos..pos + length];
      pos := pos + length;
    }
  }

  // ----- The recursive decoder -----

  datatype NameError = TooLongName | BadPointer | UnknownLabel | Incomplete

  datatype Decoded = Ok(ls: seq<Label>, next: nat) | Err(error: NameError)

  /** The target of the two-octet pointer whose first octet is `hi`. */
  function Target(hi: byte, lo: byte): nat
    requires hi >= 0xc0
  {
    (hi - 0xc0) * 0x100 + lo
  }

  /**
    * The labels found at `pos`, following pointers. A pointer must lead below `limit`,
    * the least position jumped to so far; `used` counts the octets already collected.
    */
  function Decode(data: bytes, pos: nat, limit: nat, used: nat): Decoded
    requires pos <= |data| && limit <= |data|
    decreases limit, |data| - pos
  {
    if pos == |data| then Err(Incomplete)
    else
      var c := data[pos];
      if c <= MAX_LABEL_LEN then
        if used + c + 1 > MAX_WIRE then Err(TooLongName)
        else if c == 0 then Ok([], pos + 1)
        else if pos + 1 + c > |data| then Err(Incomplete)
        else
          var rest := Decode(data, pos + 1 + c, limit, used + c + 1);
          if rest.Ok? then Ok([data[pos + 1..pos + 1 + c]] + rest.ls, rest.next) else rest
      else if c >= 0xc0 then
        if pos + 1 == |data| then Err(Incomplete)
        else if Target(c, data[pos + 1]) >= limit then Err(BadPointer)
        else
          var p := Target(c, data[pos + 1]);
          var rest := Decode(data, p, p, used);
          if rest.Ok? then Ok(rest.ls, pos + 2) else rest
      else Err(UnknownLabel)
  }

  function DecodeName(data: bytes, pos: nat): Decoded
    requires pos <= |data|
  {
    Decode(data, pos, pos, 0)
  }

  /** A decoded name fits 255 octets, and the cursor ends behind what was read first. */
  lemma {:induction false} DecodeFits(data: bytes, pos: nat, limit: nat, used: nat)
    requires pos <= |data| && limit <= |data|
    ensures var d := Decode(data, pos, limit, used);
            d.Ok? ==> used + |Body(d.ls)| + 1 <= MAX_WIRE && pos < d.next <= |data|
    decreases limit, |data| - pos
  {
    if pos < |data| {
      var c := data[pos];
      if 1 <= c <= MAX_LABEL_LEN && pos + 1 + c <= |data| {
        DecodeFits(data, pos + 1 + c, limit, used + c + 1);
      } else if c >= 0xc0 && pos + 1 < |data| && Target(c, data[pos + 1]) < limit {
        DecodeFits(data, Target(c, data[pos + 1]), Target(c, data[pos + 1]), used);
      }
    }
  }

  /** Decoding yields an encodable name of at most 255 octets and 128 labels, root included. */
  lemma DecodedFits(data: bytes, pos: nat)
    requires pos <= |data|
    ensures var d := DecodeName(data, pos);
            d.Ok? ==> FitsName(d.ls) && |d.ls| + 1 <= MAX_LABELS && pos < d.next <= |data|
  {
    DecodeFits(data, pos, pos, 0);
    var d := DecodeName(data, pos);
    if d.Ok? {
      BodyLength(d.ls);
    }
  }

  function FoldLabel(downcase: bool, l: bytes): (r: bytes)
    ensures |r| == |l|
  {
    if downcase then LowerAll(l) else l
  }

  function FoldLabels(downcase: bool, ls: seq<Label>): (r: seq<Label>)
    ensures |r| == |ls|
    ensures forall i :: 0 <= i < |ls| ==> r[i] == FoldLabel(downcase, ls[i])
  {
    seq(|ls|, i requires 0 <= i < |ls| => FoldLabel(downcase, ls[i]))
  }

  lemma {:induction false} FoldLabelsSame(downcase: bool, ls: seq<Label>)
    ensures SameLabels(FoldLabels(downcase, ls), ls)
    ensures |Body(FoldLabels(downcase, ls))| == |Body(ls)|
  {
    forall i | 0 <= i < |ls|
      ensures SameFold(FoldLabel(downcase, ls[i]), ls[i])
    {
    }
    SameLabelsSameWire(FoldLabels(downcase, ls), ls);
  }

  // ----- The decoder of the library -----

  datatype NameResult = GotName(name: Name) | Failed(error: NameError)

  ghost function NameFrom(d: Decoded, downcase: bool): NameResult
    requires d.Ok? ==> FitsName(d.ls)
  {
    match d
    case Ok(ls, _) => FoldLabelsSame(downcase, ls); GotName(FromLabels(FoldLabels(downcase, ls)))
    case Err(e) => Failed(e)
  }

  // The decoder's loop is described by three facts: what has been collected, what is
  // still to come, and how much of the current label has been read.

  /** What is still to come, put behind `acc`; after a jump the cursor is already settled. */
  ghost function Resume(acc: seq<Label>, rest: Decoded, settled: int): Decoded {
    match rest
    case Ok(ls, n) => Ok(acc + ls, if settled >= 0 then settled else n)
    case Err(e) => Err(e)
  }

  ghost predicate Pending(data: bytes, begin: nat, acc: seq<Label>, at: nat, limit: nat, settled: int) {
    && at <= |data| && limit <= begin <= |data|
    && DecodeName(data, begin) == Resume(acc, Decode(data, at, limit, |Body(acc)|), settled)
  }

  ghost predicate Collected(downcase: bool, acc: seq<Label>, raw: bytes, offsets: bytes) {
    && |raw| == |Body(acc)| <= MAX_WIRE
    && raw == Body(FoldLabels(downcase, acc))
    && |offsets| == |acc|
    && forall k :: 0 <= k < |offsets| ==> offsets[k] == Offset(FoldLabels(downcase, acc), k)
  }

  /** The label at `at` has been read up to `current`. */
  ghost predicate PartRead(data: bytes, downcase: bool, acc: seq<Label>, at: nat, current: nat, raw: bytes,
                           offsets: bytes) {
    && at < current <= |data| && data[at] <= MAX_LABEL_LEN && current <= at + 1 + data[at]
    && |offsets| == |acc| + 1
    && |Body(acc)| + data[at] + 1 <= MAX_WIRE && |raw| == |Body(acc)| + current - at
    && Collected(downcase, acc, raw[..|Body(acc)|], offsets[..|acc|])
    && offsets[|acc|] == |Body(acc)|
    && raw[|Body(acc)|..] == [data[at]] + FoldLabel(downcase, data[at + 1..current])
  }

  lemma BeginLabel(data: bytes, downcase: bool, acc: seq<Label>, at: nat, raw: bytes, offsets: bytes)
    requires Collected(downcase, acc, raw, offsets)
    requires at < |data| && data[at] <= MAX_LABEL_LEN && |raw| + data[at] + 1 <= MAX_WIRE
    ensures PartRead(data, downcase, acc, at, at + 1, raw + [data[at]], offsets + [|raw|])
  {
    assert (raw + [data[at]])[..|raw|] == raw;
    assert (offsets + [|raw|])[..|acc|] == offsets;
  }

  lemma ReadOctet(data: bytes, downcase: bool, acc: seq<Label>, at: nat, current: nat, raw: bytes, offsets: bytes)
    requires PartRead(data, downcase, acc, at, current, raw, offsets)
    requires current < at + 1 + data[at] && current < |data|
    ensures PartRead(data, downcase, acc, at, current + 1,
                     raw + [if downcase then Lower(data[current]) else data[current]], offsets)
  {
    var raw' := raw + [if downcase then Lower(data[current]) else data[current]];
    assert raw'[..|Body(acc)|] == raw[..|Body(acc)|];
    assert data[at + 1..current + 1] == data[at + 1..current] + [data[current]];
  }

  /** A label read to its end joins the collected ones. */
  lemma EndLabel(data: bytes, begin: nat, downcase: bool, acc: seq<Label>, at: nat, limit: nat, settled: int,
                 raw: bytes, offsets: bytes)
    requires at < |data| && PartRead(data, downcase, acc, at, at + 1 + data[at], raw, offsets) && data[at] >= 1
    requires Pending(data, begin, acc, at, limit, settled)
    ensures var acc' := acc + [data[at + 1..at + 1 + data[at]]];
            && Pending(data, begin, acc', at + 1 + data[at], limit, settled)
            && Collected(downcase, acc', raw, offsets)
  {
    LabelPending(data, begin, acc, at, limit, settled);
    LabelCollected(data, downcase, acc, at, raw, offsets);
  }

  lemma LabelPending(data: bytes, begin: nat, acc: seq<Label>, at: nat, limit: nat, settled: int)
    requires at < |data| && 1 <= data[at] <= MAX_LABEL_LEN && at + 1 + data[at] <= |data|
    requires Pending(data, begin, acc, at, limit, settled) && |Body(acc)| + data[at] + 1 <= MAX_WIRE
    ensures Pending(data, begin, acc + [data[at + 1..at + 1 + data[at]]], at + 1 + data[at], limit, settled)
  {
    var l: Label := data[at + 1..at + 1 + data[at]];
    BodyConcat(acc, [l]);
    assert Body([l]) == [data[at]] + l + [];
    var rest := Decode(data, at + 1 + data[at], limit, |Body(acc + [l])|);
    if rest.Ok? {
      assert acc + ([l] + rest.ls) == acc + [l] + rest.ls;
    }
  }

  lemma LabelCollected(data: bytes, downcase: bool, acc: seq<Label>, at: nat, raw: bytes, offsets: bytes)
    requires at < |data| && PartRead(data, downcase, acc, at, at + 1 + data[at], raw, offsets) && data[at] >= 1
    ensures Collected(downcase, acc + [data[at + 1..at + 1 + data[at]]], raw, offsets)
  {
    hide Body;
    var l: Label := data[at + 1..at + 1 + data[at]];
    FoldedBody(downcase, acc, l);
    FoldLabelsSame(downcase, acc + [l]);
    assert raw == raw[..|Body(acc)|] + raw[|Body(acc)|..];
  }

  lemma FoldedBody(downcase: bool, acc: seq<Label>, l: Label)
    ensures var f, f' := FoldLabels(downcase, acc), FoldLabels(downcase, acc + [l]);
            && Body(f') == Body(f) + [|l| as byte] + FoldLabel(downcase, l)
            && (forall k :: 0 <= k <= |acc| ==> Offset(f', k) == Offset(f, k))
            && Offset(f', |acc|) == |Body(f)|
  {
    var f, f' := FoldLabels(downcase, acc), FoldLabels(downcase, acc + [l]);
    var fl: Label := FoldLabel(downcase, l);
    assert f' == f + [fl];
    BodyConcat(f, [fl]);
    assert Body([fl]) == [|l| as byte] + fl + [];
    forall k | 0 <= k <= |acc|
      ensures Offset(f', k) == Offset(f, k)
    {
      assert f'[..k] == f[..k];
    }
    assert f[..|acc|] == f;
  }

  /** The final zero octet completes the name. */
  lemma EndName(data: bytes, begin: nat, downcase: bool, acc: seq<Label>, at: nat, limit: nat, settled: int,
                raw: bytes, offsets: bytes)
    requires PartRead(data, downcase, acc, at, at + 1, raw, offsets) && data[at] == 0
    requires Pending(data, begin, acc, at, limit, settled)
    ensures DecodeName(data, begin) == Ok(acc, if settled >= 0 then settled else at + 1)
    ensures FitsName(acc) && NameFrom(Ok(acc, 0), downcase) == GotName(Name(raw, offsets))
  {
    assert acc + [] == acc;
    var f := FoldLabels(downcase, acc);
    FoldLabelsSame(downcase, acc);
    assert f[..|f|] == f;
    assert raw == Wire(f);
    assert offsets == offsets[..|acc|] + [|Body(acc)|];
    forall k | 0 <= k <= |acc|
      ensures offsets[k] == Offset(f, k)
    {
    }
    assert offsets == Offsets(f);
  }

  lemma Begin(data: bytes, begin: nat, downcase: bool)
    requires begin <= |data|
    ensures Pending(data, begin, [], begin, begin, -1) && Collected(downcase, [], [], [])
  {
    var d := DecodeName(data, begin);
    if d.Ok? {
      assert [] + d.ls == d.ls;
    }
  }

  /** A good pointer moves the reading position, and settles the cursor the first time. */
  lemma Jump(data: bytes, begin: nat, acc: seq<Label>, at: nat, limit: nat, settled: int)
    requires Pending(data, begin, acc, at, limit, settled)
    requires at + 1 < |data| && data[at] >= 0xc0 && Target(data[at], data[at + 1]) < limit
    ensures var p := Target(data[at], data[at + 1]);
            Pending(data, begin, acc, p, p, if settled >= 0 then settled else at + 2)
  {
  }

  /** Every way to fail is a failure of the recursive decoder, with the same error. */
  lemma Stuck(data: bytes, begin: nat, downcase: bool, acc: seq<Label>, at: nat, limit: nat, settled: int,
              raw: bytes, offsets: bytes)
    requires Pending(data, begin, acc, at, limit, settled) && Collected(downcase, acc, raw, offsets)
    ensures at == |data| ==> DecodeName(data, begin) == Err(Incomplete)
    ensures at < |data| && data[at] <= MAX_LABEL_LEN && |raw| + data[at] + 1 > MAX_WIRE ==>
              DecodeName(data, begin) == Err(TooLongName)
    ensures at < |data| && MAX_LABEL_LEN < data[at] < 0xc0 ==> DecodeName(data, begin) == Err(UnknownLabel)
    ensures at + 1 == |data| && data[at] >= 0xc0 ==> DecodeName(data, begin) == Err(Incomplete)
    ensures at + 1 < |data| && data[at] >= 0xc0 && Target(data[at], data[at + 1]) >= limit ==>
              DecodeName(data, begin) == Err(BadPointer)
  {
  }

  lemma StuckInLabel(data: bytes, begin: nat, downcase: bool, acc: seq<Label>, at: nat, limit: nat, settled: int,
                     raw: bytes, offsets: bytes)
    requires Pending(data, begin, acc, at, limit, settled)
    requires PartRead(data, downcase, acc, at, |data|, raw, offsets) && |data| < at + 1 + data[at]
    ensures DecodeName(data, begin) == Err(Incomplete)
  {
  }

  datatype WireState = FwStart | FwOrdinary | FwNewCurrent

  method NameFromWire(buf: InputBuffer, downcase: bool) returns (r: NameResult)
    requires buf.Valid()
    modifies buf`pos
    ensures buf.Valid()
    ensures var d := DecodeName(buf.data, old(buf.pos));
            && (d.Ok? ==> FitsName(d.ls) && buf.pos == d.next)
            && r == NameFrom(d, downcase)
  {
    hide Pending, Collected, PartRead, Decode, FitsName;
    var n: int, nused, done := 0, 0, false;
    var offsets: bytes, raw: bytes := [], [];
    var seenPointer, state, cused: nat := false, FwStart, 0;
    var current: nat := buf.pos;
    var posBegin: nat, biggestPointer: nat, newCurrent: nat := current, current, 0;
    ghost var data, acc: seq<Label>, at: nat, settled := buf.data, [], current, -1;
    Begin(data, current, downcase);

    while current < |buf.data| && !done
      invariant buf.Valid() && buf.data == data && buf.pos == current && at <= current <= |data|
      invariant posBegin + cused <= |data| && biggestPointer <= posBegin
      invariant settled == if seenPointer then posBegin + cused else -1
      invariant !seenPointer ==> posBegin + cused == current
      invariant Pending(data, posBegin, acc, at, biggestPointer, settled)
      invariant done ==> state == FwOrdinary
      invariant state == FwStart ==> at == current
      invariant state != FwOrdinary ==> Collected(downcase, acc, raw, offsets) && nused == |raw| <= MAX_WIRE
      invariant state == FwOrdinary ==>
                  && at < current && PartRead(data, downcase, acc, at, current, raw, offsets)
                  && 0 <= n == at + 1 + data[at] - current && nused == |raw| + n <= MAX_WIRE
                  && if data[at] == 0 then done else !done && n >= 1
      invariant state == FwNewCurrent ==>
                  n == 1 && at + 1 == current && data[at] >= 0xc0 && newCurrent == data[at] - 0xc0
      decreases biggestPointer, |data| - current
    {
      var _, c := buf.ReadUint8();
      current := current + 1;
      if !seenPointer {
        cused := cused + 1;
      }
      match state
      case FwStart =>
        Stuck(data, posBegin, downcase, acc, at, biggestPointer, settled, raw, offsets);
        if c <= MAX_LABEL_LEN {
          if nused + c + 1 > MAX_WIRE {
            return Failed(TooLongName);
          }
          BeginLabel(data, downcase, acc, at, raw, offsets);
          offsets := offsets + [nused];
          nused := nused + c + 1;
          raw := raw + [c];
          if c == 0 {
            done := true;
          }
          n := c;
          state := FwOrdinary;
        } else if c >= 0xc0 {
          newCurrent := c - 0xc0;
          n := 1;
          state := FwNewCurrent;
        } else {
          return Failed(UnknownLabel);
        }
      case FwOrdinary =>
        ReadOctet(data, downcase, acc, at, current - 1, raw, offsets);
        raw := raw + [if downcase then Lower(c) else c];
        n := n - 1;
        if n == 0 {
          state := FwStart;
          EndLabel(data, posBegin, downcase, acc, at, biggestPointer, settled, raw, offsets);
          ghost var l: Label := data[at + 1..current];
          acc, at := acc + [l], current;
        }
      case FwNewCurrent =>
        newCurrent := newCurrent * 0x100 + c;
        n := n - 1;
        if n == 0 {
          Stuck(data, posBegin, downcase, acc, at, biggestPointer, settled, raw, offsets);
          if newCurrent >= biggestPointer {
            return Failed(BadPointer);
          }
          Jump(data, posBegin, acc, at, biggestPointer, settled);
          biggestPointer, current := newCurrent, newCurrent;
          var _ := buf.SetPosition(current);
          seenPointer := true;
          at, settled := current, posBegin + cused;
          state := FwStart;
        }
    }
    if !done {
      if state == FwOrdinary {
        StuckInLabel(data, posBegin, downcase, acc, at, biggestPointer, settled, raw, offsets);
      } else {
        Stuck(data, posBegin, downcase, acc, at, biggestPointer, settled, raw, offsets);
      }
      return Failed(Incomplete);
    }
    EndName(data, posBegin, downcase, acc, at, biggestPointer, settled, raw, offsets);
    var _ := buf.SetPosition(posBegin + cused);
    r := GotName(Name(raw, offsets));
  }
}
