/**
  * Names as text: the parser's state machine with its escapes, the printer, and the
  * round trip between them (section 5.1 of RFC 1035).
  */
module NameText {
  import opened Octets
  import opened Options
  import opened Names
  import opened NameWire

  const DOT: byte := 0x2e
  const AT: byte := 0x40
  const BACKSLASH: byte := 0x5c
  const BRACKET: byte := 0x5b

  predicate IsDigit(c: byte) {
    0x30 <= c <= 0x39
  }

  // ----- The parser -----

  datatype FtState = FtInit | FtStart | FtOrdinary | FtInitialEscape | FtEscape | FtEscDecimal

  datatype TextError =
    | EmptyLabel | DuplicatePeriod | TooLongLabel | InvalidLabelType | MixedEscape | LargeEscape | TooLong
      | IncompleteText

  /** The variables of the parsing loop. */
  datatype Parser = Parser(state: FtState, data: bytes, offsets: bytes, count: nat, digits: nat, value: nat, done: bool)

  datatype Stepped = Next(p: Parser) | Stop(error: TextError)

  function FoldOctet(downcase: bool, c: byte): byte {
    if downcase then Lower(c) else c
  }

  /** One more octet of the current label. */
  function Push(p: Parser, downcase: bool, c: byte): Stepped {
    if p.count + 1 > MAX_LABEL_LEN then Stop(TooLongLabel)
    else Next(p.(count := p.count + 1, data := p.data + [FoldOctet(downcase, c)], state := FtOrdinary))
  }

  /** The length octet of the current label gets its value. */
  function CloseLabel(p: Parser): bytes
    requires p.offsets != []
  {
    var at := p.offsets[|p.offsets| - 1];
    if at < |p.data| then p.data[at := p.count % 0x100] else p.data
  }

  function StepOrdinary(p: Parser, downcase: bool, c: byte, last: bool): Stepped
    requires p.offsets != []
  {
    if c == DOT then
      if p.count == 0 then Stop(DuplicatePeriod)
      else
        var offsets := p.offsets + [|p.data| % 0x100];
        var data := CloseLabel(p);
        Next(p.(data := if last then data + [0] else data, offsets := offsets, state := FtStart, done := last))
    else if c == BACKSLASH then Next(p.(state := FtEscape))
    else Push(p, downcase, c)
  }

  function StepDecimal(p: Parser, downcase: bool, c: byte): Stepped {
    if !IsDigit(c) then Stop(MixedEscape)
    else
      var q := p.(value := p.value * 10 + (c - 0x30), digits := p.digits + 1, state := FtEscDecimal);
      if q.digits != 3 then Next(q)
      else if q.value > 255 then Stop(LargeEscape)
      else Push(q, downcase, q.value)
  }

  function StepEscape(p: Parser, downcase: bool, c: byte): Stepped {
    if !IsDigit(c) then Push(p, downcase, c) else StepDecimal(p.(digits := 0, value := 0), downcase, c)
  }

  function StepStart(p: Parser, downcase: bool, c: byte, last: bool): Stepped
    requires p.offsets != []
  {
    var q := p.(data := p.data + [0], count := 0);
    if c == BACKSLASH then Next(q.(state := FtInitialEscape)) else StepOrdinary(q, downcase, c, last)
  }

  /** Handles one character; `last` tells that none follows. */
  function Step(p: Parser, downcase: bool, c: byte, last: bool): Stepped
    requires p.offsets != []
  {
    match p.state
    case FtInit =>
      if c == DOT && !last then Stop(EmptyLabel)
      else if last && (c == DOT || c == AT) then Next(p.(data := p.data + [0], done := true))
      else StepStart(p, downcase, c, last)
    case FtStart => StepStart(p, downcase, c, last)
    case FtOrdinary => StepOrdinary(p, downcase, c, last)
    case FtInitialEscape => if c == BRACKET then Stop(InvalidLabelType) else StepEscape(p, downcase, c)
    case FtEscape => StepEscape(p, downcase, c)
    case FtEscDecimal => StepDecimal(p, downcase, c)
  }

  datatype Parsed = GotText(name: Name) | Refused(error: TextError) | Panic

  /** After the loop, with `rest` characters unread. */
  function Finish(p: Parser, rest: nat): Parsed
    requires p.offsets != []
  {
    if p.done then GotText(Name(p.data, p.offsets))
    else if |p.data| == MAX_WIRE then Refused(TooLong)
    else if rest != 0 then Panic
    else if p.state != FtOrdinary then Refused(IncompleteText)
    else if p.count == 0 then Panic
    else GotText(Name(CloseLabel(p) + [0], p.offsets + [|p.data| % 0x100]))
  }

  function Exec(p: Parser, downcase: bool, text: bytes): Parsed
    requires p.offsets != []
    decreases |text|
  {
    if |p.data| >= MAX_WIRE || text == [] || p.done then Finish(p, |text|)
    else match Step(p, downcase, text[0], |text| == 1)
      case Stop(e) => Refused(e)
      case Next(q) => Exec(q, downcase, text[1..])
  }

  const InitialParser := Parser(FtInit, [], [0], 0, 0, 0, false)

  function Parse(text: bytes, downcase: bool): Parsed {
    Exec(InitialParser, downcase, text)
  }

  // ----- The texts of the root name -----

  /** Once a label has begun, what comes out is longer than the root name. */
  lemma {:induction false} ExecLonger(p: Parser, downcase: bool, text: bytes)
    requires p.offsets != [] && p.state != FtInit && |p.data| > if p.done then 1 else 0
    ensures var r := Exec(p, downcase, text); r.GotText? ==> |r.name.raw| > 1
    decreases |text|
  {
    if !(|p.data| >= MAX_WIRE || text == [] || p.done) && Step(p, downcase, text[0], |text| == 1).Next? {
      StepLonger(p, downcase, text[0], |text| == 1);
      ExecLonger(Step(p, downcase, text[0], |text| == 1).p, downcase, text[1..]);
    }
  }

  lemma StepLonger(p: Parser, downcase: bool, c: byte, last: bool)
    requires p.offsets != [] && p.state != FtInit && p.data != [] && !p.done
    ensures var s := Step(p, downcase, c, last);
      s.Next? ==> s.p.offsets != [] && s.p.state != FtInit && |s.p.data| > if s.p.done then 1 else 0
  {
  }

  lemma RootParts()
    ensures FromLabels([]) == Name([0], [0])
  {
    assert Offset([], 0) == 0;
  }

  /** The root name is written as a dot or as an at sign, and in no other way. */
  lemma RootText(text: bytes, downcase: bool)
    ensures Parse(text, downcase) == GotText(FromLabels([])) <==> text == [0x2e] || text == [0x40]
  {
    var p := InitialParser;
    RootParts();
    if text != [] {
      var s := Step(p, downcase, text[0], |text| == 1);
      assert |text| == 1 ==> text[1..] == [] && text == [text[0]];
      if s.Next? {
        assert Exec(p, downcase, text) == Exec(s.p, downcase, text[1..]);
        if s.p.done {
          assert Exec(s.p, downcase, text[1..]) == Finish(s.p, |text[1..]|);
          assert s.p.data == [0] && s.p.offsets == [0];
        } else {
          ExecLonger(s.p, downcase, text[1..]);
        }
      }
    }
  }

  // ----- What the parser's variables hold -----

  predicate InLabel(s: FtState) {
    s != FtInit && s != FtStart
  }

  /**
    * Complete labels `acc` and the octets `w` of the label being read. A label begun when
    * 254 octets are there passes by the length at which the loop means to stop.
    */
  ghost predicate Holds(p: Parser, acc: seq<Label>, w: bytes) {
    && !p.done && |Body(acc)| <= 254
    && |p.offsets| == |acc| + 1 && (forall k :: 0 <= k <= |acc| ==> p.offsets[k] == Offset(acc, k))
    && if InLabel(p.state) then
         && p.data == Body(acc) + [0] + w && |w| == p.count <= MAX_LABEL_LEN && (p.state == FtOrdinary ==> w != [])
         && (p.state == FtEscDecimal ==> 1 <= p.digits <= 2)
         && (|p.data| <= MAX_WIRE || (|Body(acc)| == 254 && |w| == 1 && p.state == FtOrdinary))
       else w == [] && p.data == Body(acc) && (p.state == FtStart <==> acc != [])
  }

  lemma OffsetsExtend(acc: seq<Label>, w: Label, offsets: bytes)
    requires |offsets| == |acc| + 1 && (forall k :: 0 <= k <= |acc| ==> offsets[k] == Offset(acc, k))
    requires |Body(acc + [w])| <= 254
    ensures forall k :: 0 <= k <= |acc| + 1 ==> (offsets + [|Body(acc + [w])|])[k] == Offset(acc + [w], k)
  {
    forall k | 0 <= k <= |acc| + 1
      ensures (offsets + [|Body(acc + [w])|])[k] == Offset(acc + [w], k)
    {
      if k <= |acc| {
        assert (acc + [w])[..k] == acc[..k];
      } else {
        assert (acc + [w])[..k] == acc + [w];
      }
    }
  }

  /** Closing a label completes it. */
  lemma Closed(p: Parser, acc: seq<Label>, w: bytes)
    requires Holds(p, acc, w) && InLabel(p.state) && w != []
    ensures CloseLabel(p) == Body(acc + [w]) && |Body(acc + [w])| == |p.data|
  {
    var l: Label := w;
    assert acc[..|acc|] == acc;
    BodyConcat(acc, [l]);
    assert Body([l]) == [|l| as byte] + l + [];
    assert p.data[|Body(acc)| := |w|] == Body(acc) + [|w| as byte] + w;
  }

  lemma PushHolds(p: Parser, acc: seq<Label>, w: bytes, downcase: bool, c: byte)
    requires Holds(p, acc, w) && InLabel(p.state) && |p.data| < MAX_WIRE
    ensures var s := Push(p, downcase, c); s.Next? ==> Holds(s.p, acc, w + [FoldOctet(downcase, c)])
  {
    assert Body(acc) + [0] + w + [FoldOctet(downcase, c)] == Body(acc) + [0] + (w + [FoldOctet(downcase, c)]);
  }

  lemma DotHolds(p: Parser, acc: seq<Label>, w: bytes, downcase: bool)
    requires Holds(p, acc, w) && p.state == FtOrdinary && |p.data| < MAX_WIRE
    ensures var s := StepOrdinary(p, downcase, DOT, false);
            s.Next? && Holds(s.p, acc + [w], []) && s.p.state == FtStart && |s.p.data| == |p.data|
    ensures var s := StepOrdinary(p, downcase, DOT, true);
            && s.Next? && s.p.done && FitsName(acc + [w]) && Name(s.p.data, s.p.offsets) == FromLabels(acc + [w])
  {
    hide Body;
    Closed(p, acc, w);
    OffsetsExtend(acc, w, p.offsets);
    var offsets := p.offsets + [|p.data| % 0x100];
    assert offsets == Offsets(acc + [w]);
  }

  /** The start of a label: its length octet is a placeholder until it is closed. */
  lemma BeginHolds(p: Parser, acc: seq<Label>, s: FtState)
    requires Holds(p, acc, []) && !InLabel(p.state) && InLabel(s) && s != FtOrdinary && s != FtEscDecimal
    ensures Holds(p.(data := p.data + [0], count := 0, state := s), acc, [])
  {
    assert Body(acc) + [0] + [] == Body(acc) + [0];
  }

  /** A character other than a dot or a backslash, where a label may start. */
  lemma FirstHolds(p: Parser, acc: seq<Label>, downcase: bool, c: byte, last: bool)
    requires Holds(p, acc, []) && !InLabel(p.state) && c != DOT && c != BACKSLASH
    ensures var s := StepStart(p, downcase, c, last);
            s.Next? && Holds(s.p, acc, [FoldOctet(downcase, c)]) && s.p.state == FtOrdinary
              && |s.p.data| == |p.data| + 2
  {
    assert p.data + [0] + [FoldOctet(downcase, c)] == Body(acc) + [0] + [FoldOctet(downcase, c)];
  }

  lemma EscapeHolds(p: Parser, acc: seq<Label>, w: bytes, downcase: bool, c: byte) returns (w': bytes)
    requires Holds(p, acc, w) && |p.data| < MAX_WIRE
    requires p.state == FtEscape || p.state == FtInitialEscape || p.state == FtEscDecimal
    ensures var s := if p.state == FtEscDecimal then StepDecimal(p, downcase, c) else StepEscape(p, downcase, c);
            s.Next? ==> Holds(s.p, acc, w')
  {
    hide Body;
    w' := w;
    var q := if p.state == FtEscDecimal then p else p.(digits := 0, value := 0);
    if !IsDigit(c) {
      if p.state != FtEscDecimal {
        PushHolds(p, acc, w, downcase, c);
        w' := w + [FoldOctet(downcase, c)];
      }
    } else if q.digits == 2 {
      var v := q.value * 10 + (c - 0x30);
      if v <= 255 {
        var t := q.(value := v, digits := 3, state := FtEscape);
        assert Holds(t, acc, w);
        PushHolds(t, acc, w, downcase, v);
        w' := w + [FoldOctet(downcase, v)];
      }
    }
  }

  /** Where the loop can overrun its length limit: a plain character starts a label at 254 octets. */
  predicate AtBrink(p: Parser, c: byte) {
    p.state == FtStart && |p.data| == 254 && c != DOT && c != BACKSLASH
  }

  /** One step: the description is kept, or a well-formed name is complete. */
  lemma StepHolds(p: Parser, acc: seq<Label>, w: bytes, downcase: bool, c: byte, last: bool)
    returns (acc': seq<Label>, w': bytes)
    requires Holds(p, acc, w) && |p.data| < MAX_WIRE
    ensures var s := Step(p, downcase, c, last);
            && (s.Next? ==> s.p.offsets != [])
            && (s.Next? && s.p.done ==> last && Valid(Name(s.p.data, s.p.offsets)))
            && (s.Next? && !s.p.done ==> Holds(s.p, acc', w') && (|s.p.data| > MAX_WIRE <==> AtBrink(p, c)))
  {
    hide Body, FromLabels;
    NothingYet(p, acc, w);
    acc', w' := acc, w;
    match p.state {
      case FtOrdinary =>
        if c == DOT {
          DotHolds(p, acc, w, downcase);
          LabelsOfEncoding(acc + [w]);
          acc', w' := acc + [w], [];
        } else if c != BACKSLASH {
          PushHolds(p, acc, w, downcase, c);
          w' := w + [FoldOctet(downcase, c)];
        }
      case FtInitialEscape => w' := EscapeHolds(p, acc, w, downcase, c);
      case FtEscape => w' := EscapeHolds(p, acc, w, downcase, c);
      case FtEscDecimal => w' := EscapeHolds(p, acc, w, downcase, c);
      case _ =>
        if p.state == FtInit && last && (c == DOT || c == AT) {
          RootIsValid(p);
        } else if c == BACKSLASH {
          BeginHolds(p, acc, FtInitialEscape);
        } else if c != DOT {
          FirstHolds(p, acc, downcase, c, last);
          w' := [FoldOctet(downcase, c)];
        }
    }
    assert w' == w' + [];
  }

  lemma RootIsValid(p: Parser)
    requires Holds(p, [], []) && p.state == FtInit
    ensures Valid(Name(p.data + [0], p.offsets))
  {
    LabelsOfEncoding([]);
    assert p.offsets == Offsets([]);
  }

  /** Whether the parser ever overruns its length limit on this text. */
  predicate Overruns(p: Parser, downcase: bool, text: bytes)
    requires p.offsets != []
    decreases |text|
  {
    && |p.data| < MAX_WIRE && text != [] && !p.done
    && (AtBrink(p, text[0])
        || var s := Step(p, downcase, text[0], |text| == 1);
           s.Next? && Overruns(s.p, downcase, text[1..]))
  }

  lemma FinishHolds(p: Parser, acc: seq<Label>, w: bytes)
    requires Holds(p, acc, w) && |p.data| <= MAX_WIRE
    ensures var r := Finish(p, 0); !r.Panic? && (r.GotText? ==> Valid(r.name))
    ensures |p.data| == MAX_WIRE ==> forall rest :: Finish(p, rest) == Refused(TooLong)
  {
    hide Body, FromLabels;
    if |p.data| < MAX_WIRE && p.state == FtOrdinary {
      Closed(p, acc, w);
      OffsetsExtend(acc, w, p.offsets);
      assert p.offsets + [|p.data| % 0x100] == Offsets(acc + [w]);
      LabelsOfEncoding(acc + [w]);
      assert Finish(p, 0) == GotText(FromLabels(acc + [w])) by { EncodingParts(acc + [w]); }
    }
  }

  lemma EncodingParts(ls: seq<Label>)
    requires FitsName(ls)
    ensures FromLabels(ls) == Name(Body(ls) + [0], Offsets(ls))
  {
  }

  lemma LongIsInvalid(n: Name)
    requires |n.raw| > MAX_WIRE
    ensures !Valid(n)
  {
  }

  lemma {:induction false} ExecHolds(p: Parser, acc: seq<Label>, w: bytes, downcase: bool, text: bytes)
    requires Holds(p, acc, w) && |p.data| <= MAX_WIRE
    ensures var r := Exec(p, downcase, text);
            if Overruns(p, downcase, text) then r.Panic? || (r.GotText? && |r.name.raw| == 257)
            else !r.Panic? && (r.GotText? ==> Valid(r.name))
    decreases |text|
  {
    hide Holds, Valid, Step;
    Unfinished(p, acc, w);
    if |p.data| >= MAX_WIRE || text == [] {
      FinishHolds(p, acc, w);
    } else {
      var s := Step(p, downcase, text[0], |text| == 1);
      var acc', w' := StepHolds(p, acc, w, downcase, text[0], |text| == 1);
      if AtBrink(p, text[0]) {
        Overrun(p, acc, w, downcase, text);
      } else if s.Next? && !s.p.done {
        Unfinished(s.p, acc', w');
        ExecHolds(s.p, acc', w', downcase, text[1..]);
      } else if s.Next? {
        assert Exec(s.p, downcase, text[1..]) == GotText(Name(s.p.data, s.p.offsets));
        assert !Overruns(s.p, downcase, text[1..]);
      }
    }
  }

  lemma NothingYet(p: Parser, acc: seq<Label>, w: bytes)
    requires Holds(p, acc, w)
    ensures p.state == FtInit ==> p.data == []
  {
  }

  lemma Unfinished(p: Parser, acc: seq<Label>, w: bytes)
    requires Holds(p, acc, w)
    ensures !p.done && p.offsets != []
  {
  }

  lemma Overrun(p: Parser, acc: seq<Label>, w: bytes, downcase: bool, text: bytes)
    requires Holds(p, acc, w) && text != [] && AtBrink(p, text[0])
    ensures var r := Exec(p, downcase, text); if |text| == 1 then r.GotText? && |r.name.raw| == 257 else r.Panic?
  {
    FirstHolds(p, acc, downcase, text[0], |text| == 1);
    var q := Step(p, downcase, text[0], |text| == 1).p;
    Closed(q, acc, [FoldOctet(downcase, text[0])]);
  }

  lemma OverrunSound(text: bytes, downcase: bool)
    ensures var r := Parse(text, downcase);
            (!r.Panic? && (r.GotText? ==> Valid(r.name))) <==> !Overruns(InitialParser, downcase, text)
  {
    assert Holds(InitialParser, [], []);
    ExecHolds(InitialParser, [], [], downcase, text);
    var r := Parse(text, downcase);
    if r.GotText? && |r.name.raw| == 257 {
      LongIsInvalid(r.name);
    }
  }

  // ----- The printer -----

  /** Octets with a meaning of their own in text: " ( ) . ; \ @ $ */
  predicate Special(c: byte) {
    c == 0x22 || c == 0x28 || c == 0x29 || c == 0x2e || c == 0x3b || c == 0x5c || c == 0x40 || c == 0x24
  }

  function OctetText(c: byte): (s: bytes)
    ensures s != []
  {
    if Special(c) then [BACKSLASH, c]
    else if 0x20 < c < 0x7f then [c]
    else [BACKSLASH, 0x30 + c / 100 % 10, 0x30 + c / 10 % 10, 0x30 + c % 10]
  }

  /** An octet is printed as itself if it is visible and means nothing else; what means something is escaped. */
  lemma OctetTextTells(c: byte)
    ensures var t, special := OctetText(c), c in [0x22, 0x24, 0x28, 0x29, 0x2e, 0x3b, 0x40, 0x5c];
      && (|t| == 1 <==> 0x21 <= c <= 0x7e && !special) && (|t| == 2 <==> special) && |t| in {1, 2, 4}
      && (|t| <= 2 ==> t[|t| - 1] == c) && (|t| > 1 ==> t[0] == 0x5c)
      && (|t| == 4 ==> forall i :: 1 <= i < 4 ==> IsDigit(t[i]))
  {
  }

  function LabelText(l: bytes): bytes {
    if l == [] then [] else OctetText(l[0]) + LabelText(l[1..])
  }

  function LabelsText(ls: seq<Label>): bytes {
    if ls == [] then [] else if |ls| == 1 then LabelText(ls[0]) else LabelText(ls[0]) + [DOT] + LabelsText(ls[1..])
  }

  function Text(ls: seq<Label>, omitFinalDot: bool): bytes {
    if ls == [] then [DOT] else LabelsText(ls) + if omitFinalDot then [] else [DOT]
  }

  // ----- Parsing what was printed -----

  lemma DigitsSpell(c: byte)
    ensures (c / 100 % 10) * 100 + (c / 10 % 10) * 10 + c % 10 == c
  {
  }

  /** One step of the loop, when the loop goes on. */
  lemma ExecStep(p: Parser, downcase: bool, c: byte, rest: bytes, q: Parser)
    requires p.offsets != [] && |p.data| < MAX_WIRE && !p.done && Step(p, downcase, c, rest == []) == Next(q)
    ensures q.offsets != [] && Exec(p, downcase, [c] + rest) == Exec(q, downcase, rest)
  {
    var text := [c] + rest;
    assert text[0] == c && text[1..] == rest;
  }

  ghost predicate Open(p: Parser, acc: seq<Label>, w: bytes) {
    Holds(p, acc, w) && (p.state == FtInit || p.state == FtStart || p.state == FtOrdinary)
  }

  /** Where a label may continue or start, a backslash leads to an escape. */
  lemma BackslashStep(p: Parser, acc: seq<Label>, w: bytes, downcase: bool, rest: bytes) returns (q: Parser)
    requires Open(p, acc, w) && |Body(acc)| + |w| + 2 <= 254 && rest != []
    ensures q.offsets != [] && Exec(p, downcase, [BACKSLASH] + rest) == Exec(q, downcase, rest)
    ensures Holds(q, acc, w) && (q.state == FtEscape || q.state == FtInitialEscape) && |q.data| == |Body(acc)| + |w| + 1
  {
    hide Body;
    NothingYet(p, acc, w);
    if p.state == FtOrdinary {
      q := p.(state := FtEscape);
    } else {
      q := p.(data := p.data + [0], count := 0, state := FtInitialEscape);
      BeginHolds(p, acc, FtInitialEscape);
    }
    ExecStep(p, downcase, BACKSLASH, rest, q);
  }

  lemma DigitStep(p: Parser, acc: seq<Label>, w: bytes, downcase: bool, c: byte, rest: bytes) returns (q: Parser)
    requires Holds(p, acc, w) && |p.data| <= 253 && IsDigit(c)
    requires p.state == FtEscape || p.state == FtInitialEscape || (p.state == FtEscDecimal && p.digits == 1)
    ensures q.offsets != [] && Exec(p, downcase, [c] + rest) == Exec(q, downcase, rest)
    ensures Holds(q, acc, w) && q.state == FtEscDecimal && q.data == p.data
    ensures if p.state == FtEscDecimal then q.digits == 2 && q.value == p.value * 10 + (c - 0x30)
            else q.digits == 1 && q.value == c - 0x30
  {
    hide Body;
    var d, v := if p.state == FtEscDecimal then p.digits else 0, if p.state == FtEscDecimal then p.value else 0;
    q := p.(digits := d + 1, value := v * 10 + (c - 0x30), state := FtEscDecimal);
    ExecStep(p, downcase, c, rest, q);
  }

  /** The last character of an octet's text adds the octet to the label. */
  lemma LastStep(p: Parser, acc: seq<Label>, w: bytes, downcase: bool, c: byte, v: byte, rest: bytes)
    returns (q: Parser)
    requires Holds(p, acc, w) && InLabel(p.state) && |p.data| <= 253 && |w| < MAX_LABEL_LEN
    requires if p.state == FtEscDecimal then p.digits == 2 && IsDigit(c) && v as int == p.value * 10 + (c - 0x30)
             else c == v && if p.state == FtOrdinary then c != DOT && c != BACKSLASH else !IsDigit(c) && c != BRACKET
    ensures q.offsets != [] && Exec(p, downcase, [c] + rest) == Exec(q, downcase, rest)
    ensures Holds(q, acc, w + [FoldOctet(downcase, v)]) && q.state == FtOrdinary
  {
    hide Body;
    var t := if p.state == FtEscDecimal then p.(digits := 3, value := v, state := FtEscape) else p;
    assert Holds(t, acc, w);
    PushHolds(t, acc, w, downcase, v);
    q := Step(p, downcase, c, rest == []).p;
    ExecStep(p, downcase, c, rest, q);
  }

  /** The text of one octet adds just that octet to the label being read. */
  lemma OctetStep(p: Parser, acc: seq<Label>, w: bytes, downcase: bool, c: byte, rest: bytes) returns (q: Parser)
    requires Open(p, acc, w) && |w| < MAX_LABEL_LEN && |Body(acc)| + |w| + 2 <= 254
    ensures q.offsets != [] && Exec(p, downcase, OctetText(c) + rest) == Exec(q, downcase, rest)
    ensures Holds(q, acc, w + [FoldOctet(downcase, c)]) && q.state == FtOrdinary
  {
    hide Body, Holds, Exec, Step;
    OpenFacts(p, acc, w);
    if Special(c) {
      assert [BACKSLASH, c] + rest == [BACKSLASH] + ([c] + rest);
      var q1 := BackslashStep(p, acc, w, downcase, [c] + rest);
      q := LastStep(q1, acc, w, downcase, c, c, rest);
    } else if 0x20 < c < 0x7f {
      if p.state == FtOrdinary {
        q := LastStep(p, acc, w, downcase, c, c, rest);
      } else {
        q := PlainStart(p, acc, downcase, c, rest);
        assert w + [FoldOctet(downcase, c)] == [FoldOctet(downcase, c)];
      }
    } else {
      var d1, d2, d3 := 0x30 + c / 100 % 10, 0x30 + c / 10 % 10, 0x30 + c % 10;
      DigitsSpell(c);
      assert [BACKSLASH, d1, d2, d3] + rest == [BACKSLASH] + ([d1] + ([d2] + ([d3] + rest)));
      var q1 := BackslashStep(p, acc, w, downcase, [d1] + ([d2] + ([d3] + rest)));
      var q2 := DigitStep(q1, acc, w, downcase, d1, [d2] + ([d3] + rest));
      var q3 := DigitStep(q2, acc, w, downcase, d2, [d3] + rest);
      q := LastStep(q3, acc, w, downcase, d3, c, rest);
    }
  }

  lemma OpenFacts(p: Parser, acc: seq<Label>, w: bytes)
    requires Open(p, acc, w)
    ensures p.state != FtOrdinary ==> w == []
    ensures p.state == FtOrdinary ==> |p.data| == |Body(acc)| + 1 + |w|
  {
  }

  lemma PlainStart(p: Parser, acc: seq<Label>, downcase: bool, c: byte, rest: bytes) returns (q: Parser)
    requires Holds(p, acc, []) && !InLabel(p.state) && |Body(acc)| <= 252 && c != DOT && c != BACKSLASH && c != AT
    ensures q.offsets != [] && Exec(p, downcase, [c] + rest) == Exec(q, downcase, rest)
    ensures Holds(q, acc, [FoldOctet(downcase, c)]) && q.state == FtOrdinary
  {
    hide Body;
    FirstHolds(p, acc, downcase, c, rest == []);
    q := StepStart(p, downcase, c, rest == []).p;
    ExecStep(p, downcase, c, rest, q);
  }

  lemma LabelTextSplit(l: bytes, k: nat)
    requires k < |l|
    ensures LabelText(l[k..]) == OctetText(l[k]) + LabelText(l[k + 1..])
  {
    assert l[k..][0] == l[k] && l[k..][1..] == l[k + 1..];
  }

  lemma FoldedPrefix(downcase: bool, l: bytes, k: nat)
    requires k < |l|
    ensures FoldLabel(downcase, l[..k]) + [FoldOctet(downcase, l[k])] == FoldLabel(downcase, l[..k + 1])
  {
  }

  /** The text of a label, from octet `k` on, reads the rest of the label. */
  lemma {:induction false} LabelRun(p: Parser, acc: seq<Label>, l: Label, k: nat, downcase: bool, rest: bytes)
    returns (q: Parser)
    requires k <= |l| && |Body(acc)| + |l| + 1 <= 254
    requires Open(p, acc, FoldLabel(downcase, l[..k])) && (k == |l| ==> p.state == FtOrdinary)
    ensures q.offsets != [] && Exec(p, downcase, LabelText(l[k..]) + rest) == Exec(q, downcase, rest)
    ensures Holds(q, acc, FoldLabel(downcase, l)) && q.state == FtOrdinary
    decreases |l| - k
  {
    hide Body, Holds, Exec, OctetText;
    if k == |l| {
      assert l[..k] == l && l[k..] == [] && LabelText([]) + rest == rest;
      q := p;
      Unfinished(p, acc, FoldLabel(downcase, l));
    } else {
      LabelTextSplit(l, k);
      FoldedPrefix(downcase, l, k);
      var q1 := OctetStep(p, acc, FoldLabel(downcase, l[..k]), downcase, l[k], LabelText(l[k + 1..]) + rest);
      assert OctetText(l[k]) + (LabelText(l[k + 1..]) + rest) == LabelText(l[k..]) + rest;
      q := LabelRun(q1, acc, l, k + 1, downcase, rest);
    }
  }

  /** The dot behind a label, with more text to come, completes it. */
  lemma DotRun(p: Parser, acc: seq<Label>, w: Label, downcase: bool, rest: bytes) returns (q: Parser)
    requires Holds(p, acc, w) && p.state == FtOrdinary && |Body(acc)| + |w| + 1 <= 254 && rest != []
    ensures q.offsets != [] && Exec(p, downcase, [DOT] + rest) == Exec(q, downcase, rest)
    ensures Holds(q, acc + [w], []) && q.state == FtStart && |q.data| == |Body(acc)| + |w| + 1
  {
    hide Body;
    DotHolds(p, acc, w, downcase);
    q := StepOrdinary(p, downcase, DOT, false).p;
    ExecStep(p, downcase, DOT, rest, q);
  }

  /** The end of the text, with or without a dot, completes the name. */
  lemma EndRun(p: Parser, acc: seq<Label>, w: Label, downcase: bool, omit: bool)
    requires Holds(p, acc, w) && p.state == FtOrdinary && |Body(acc)| + |w| + 1 <= 254
    ensures FitsName(acc + [w])
    ensures p.offsets != [] && Exec(p, downcase, if omit then [] else [DOT]) == GotText(FromLabels(acc + [w]))
  {
    hide Body;
    DotHolds(p, acc, w, downcase);
    if omit {
      Closed(p, acc, w);
      OffsetsExtend(acc, w, p.offsets);
      assert p.offsets + [|p.data| % 0x100] == Offsets(acc + [w]);
    } else {
      var q := StepOrdinary(p, downcase, DOT, true).p;
      ExecStep(p, downcase, DOT, [], q);
      assert [DOT] + [] == [DOT];
    }
  }

  lemma FoldLabelsSplit(downcase: bool, ls: seq<Label>, k: nat)
    requires k < |ls|
    ensures FoldLabels(downcase, ls[..k]) + [FoldLabel(downcase, ls[k])] == FoldLabels(downcase, ls[..k + 1])
    ensures |Body(FoldLabels(downcase, ls[..k]))| == Offset(ls, k)
  {
    FoldLabelsSame(downcase, ls[..k]);
  }

  lemma LabelsTextParts(ls: seq<Label>, k: nat)
    requires k < |ls|
    ensures LabelsText(ls[k..]) ==
      if k + 1 == |ls| then LabelText(ls[k]) else LabelText(ls[k]) + [DOT] + LabelsText(ls[k + 1..])
  {
    assert ls[k..][0] == ls[k] && ls[k..][1..] == ls[k + 1..];
  }

  /** The text of the labels from `k` on, then the end. */
  lemma {:induction false} LabelsRun(p: Parser, ls: seq<Label>, k: nat, downcase: bool, omit: bool)
    requires FitsName(ls) && k < |ls| && Open(p, FoldLabels(downcase, ls[..k]), []) && p.state != FtOrdinary
    ensures p.offsets != [] && FitsName(FoldLabels(downcase, ls))
    ensures Exec(p, downcase, LabelsText(ls[k..]) + if omit then [] else [DOT])
      == GotText(FromLabels(FoldLabels(downcase, ls)))
    decreases |ls| - k
  {
    hide Body, Holds, Exec, LabelText, FromLabels, LabelsText, Offset;
    LabelsTextParts(ls, k);
    var acc, l, f := FoldLabels(downcase, ls[..k]), ls[k], FoldLabel(downcase, ls[k]);
    var tail := if omit then [] else [DOT];
    FoldLabelsSplit(downcase, ls, k);
    OffsetStep(ls, k);
    OffsetBound(ls, k + 1);
    Unfinished(p, acc, []);
    assert FoldLabel(downcase, l[..0]) == [] && l[0..] == l;
    if k + 1 == |ls| {
      var q := LabelRun(p, acc, l, 0, downcase, tail);
      EndRun(q, acc, f, downcase, omit);
      assert ls[..k + 1] == ls;
    } else {
      var rest := LabelsText(ls[k + 1..]) + tail;
      assert LabelsText(ls[k..]) + tail == LabelText(l) + ([DOT] + rest);
      var q := LabelRun(p, acc, l, 0, downcase, [DOT] + rest);
      MoreText(ls[k + 1..]);
      var q' := DotRun(q, acc, f, downcase, rest);
      LabelsRun(q', ls, k + 1, downcase, omit);
    }
  }

  lemma MoreText(ls: seq<Label>)
    requires ls != []
    ensures LabelsText(ls) != []
  {
    assert LabelText(ls[0]) == OctetText(ls[0][0]) + LabelText(ls[0][1..]);
  }

  /**
    * Parsing the printed form of a name, with or without the final dot, gives the same
    * octets and offsets back, in lower case if that is asked for.
    */
  lemma TextRoundTrip(ls: seq<Label>, omitFinalDot: bool, downcase: bool)
    requires FitsName(ls)
    ensures FitsName(FoldLabels(downcase, ls))
    ensures Parse(Text(ls, omitFinalDot), downcase) == GotText(FromLabels(FoldLabels(downcase, ls)))
  {
    hide FromLabels;
    FoldLabelsSame(downcase, ls);
    if ls == [] {
      EncodingParts([]);
      assert Offsets([]) == [0];
      assert FoldLabels(downcase, ls) == [];
      var q := InitialParser.(data := [0], done := true);
      ExecStep(InitialParser, downcase, DOT, [], q);
      assert [DOT] + [] == [DOT];
    } else {
      var none: seq<Label> := [];
      assert ls[..0] == none && FoldLabels(downcase, ls[..0]) == none && ls[0..] == ls;
      assert Holds(InitialParser, none, []);
      LabelsRun(InitialParser, ls, 0, downcase, omitFinalDot);
    }
  }

  // ----- Texts that overrun -----

  /** Labels each followed by a dot, more text behind, leave the parser ready for a label. */
  lemma {:induction false} DottedRun(p: Parser, ls: seq<Label>, k: nat, downcase: bool, rest: bytes) returns (q: Parser)
    requires FitsName(ls) && k <= |ls| && ls != [] && rest != []
    requires Holds(p, FoldLabels(downcase, ls[..k]), []) && (p.state == FtInit || p.state == FtStart)
    ensures p.offsets != [] && q.offsets != []
    ensures Exec(p, downcase, DottedText(ls[k..]) + rest) == Exec(q, downcase, rest)
    ensures Holds(q, FoldLabels(downcase, ls), []) && q.state == FtStart && |q.data| == |Body(ls)|
    decreases |ls| - k
  {
    hide Body, Holds, Exec, LabelText;
    var acc := FoldLabels(downcase, ls[..k]);
    Unfinished(p, acc, []);
    if k == |ls| {
      assert ls[..k] == ls && ls[k..] == [] && DottedText([]) + rest == rest;
      q := p;
      FoldLabelsSame(downcase, ls);
      StartFacts(p, acc);
    } else {
      var l, f := ls[k], FoldLabel(downcase, ls[k]);
      FoldLabelsSplit(downcase, ls, k);
      OffsetStep(ls, k);
      OffsetBound(ls, k + 1);
      assert FoldLabel(downcase, l[..0]) == [] && l[0..] == l;
      assert ls[k..][0] == l && ls[k..][1..] == ls[k + 1..];
      var more := DottedText(ls[k + 1..]) + rest;
      assert DottedText(ls[k..]) + rest == LabelText(l) + ([DOT] + more);
      var q1 := LabelRun(p, acc, l, 0, downcase, [DOT] + more);
      var q2 := DotRun(q1, acc, f, downcase, more);
      q := DottedRun(q2, ls, k + 1, downcase, rest);
    }
  }

  lemma StartFacts(p: Parser, acc: seq<Label>)
    requires Holds(p, acc, []) && (p.state == FtInit || p.state == FtStart)
    ensures |p.data| == |Body(acc)| && (acc != [] ==> p.state == FtStart)
  {
  }

  function DottedText(ls: seq<Label>): bytes {
    if ls == [] then [] else LabelText(ls[0]) + [DOT] + DottedText(ls[1..])
  }

  /**
    * The overrun is real: behind labels of 254 octets, one plain character gives a name of
    * 257 octets, and more text makes the parser panic.
    */
  lemma OverrunHappens(ls: seq<Label>, c: byte, more: bytes, downcase: bool)
    requires |Body(ls)| == 254 && c != DOT && c != BACKSLASH
    ensures var r := Parse(DottedText(ls) + [c] + more, downcase);
            if more == [] then r.GotText? && |r.name.raw| == 257 else r.Panic?
  {
    var none: seq<Label> := [];
    assert ls != [];
    assert ls[..0] == none && FoldLabels(downcase, ls[..0]) == none && ls[0..] == ls;
    assert Holds(InitialParser, none, []);
    var rest := [c] + more;
    assert DottedText(ls) + [c] + more == DottedText(ls) + rest;
    var q := DottedRun(InitialParser, ls, 0, downcase, rest);
    Overrun(q, FoldLabels(downcase, ls), [], downcase, rest);
  }

  function OneOctetLabels(n: nat): seq<Label> {
    if n == 0 then [] else [[0x61]] + OneOctetLabels(n - 1)
  }

  /** Such label lists exist: 127 labels of one octet. */
  lemma {:induction false} OneOctetLabelsSize(n: nat)
    ensures |Body(OneOctetLabels(n))| == 2 * n
  {
    if n > 0 {
      assert OneOctetLabels(n)[1..] == OneOctetLabels(n - 1);
      OneOctetLabelsSize(n - 1);
    }
  }

  /** The text `a.a. ... .a`, 128 times the letter, is taken for a name of 257 octets. */
  lemma LongTextTaken(downcase: bool)
    ensures var r := Parse(DottedText(OneOctetLabels(127)) + [0x61] + [], downcase); r.GotText? && |r.name.raw| == 257
    ensures Parse(DottedText(OneOctetLabels(127)) + [0x61] + [0x61], downcase) == Panic
  {
    OneOctetLabelsSize(127);
    OverrunHappens(OneOctetLabels(127), 0x61, [], downcase);
    OverrunHappens(OneOctetLabels(127), 0x61, [0x61], downcase);
  }

  // ----- Texts that overrun, told from the text -----

  /**
    * At `k` the text goes on, with neither a dot nor a backslash, behind a dot that may be
    * left out, and what is before it is a name of full length.
    */
  ghost predicate Brink(text: bytes, downcase: bool, k: nat) {
    && 0 < k < |text| && text[k - 1] == DOT && text[k] != DOT && text[k] != BACKSLASH
    && FullLength(Parse(text[..k], downcase)) && Parse(text[..k - 1], downcase) == Parse(text[..k], downcase)
  }

  predicate FullLength(r: Parsed) {
    r.GotText? && |r.name.raw| == MAX_WIRE
  }

  /** The parser after a text that more will follow, if it gets through. */
  function RunTo(p: Parser, downcase: bool, text: bytes): (r: Option<Parser>)
    requires p.offsets != []
    ensures r.Some? ==> r.value.offsets != []
    decreases |text|
  {
    if text == [] then Some(p)
    else if |p.data| >= MAX_WIRE || p.done then None
    else
      StepOffsets(p, downcase, text[0], false);
      match Step(p, downcase, text[0], false)
      case Stop(_) => None
      case Next(q) => RunTo(q, downcase, text[1..])
  }

  lemma {:induction false} RunToAppend(p: Parser, downcase: bool, text: bytes, c: byte)
    requires p.offsets != []
    ensures RunTo(p, downcase, text + [c]) ==
      match RunTo(p, downcase, text)
      case None => None
      case Some(q) =>
        if |q.data| >= MAX_WIRE || q.done then None
        else match Step(q, downcase, c, false)
          case Stop(_) => None
          case Next(q') => Some(q')
    decreases |text|
  {
    hide Step;
    StepOffsets(p, downcase, c, false);
    if text == [] {
      assert text + [c] == [c] && [c][1..] == [];
    } else {
      assert (text + [c])[1..] == text[1..] + [c] && (text + [c])[0] == text[0];
      StepOffsets(p, downcase, text[0], false);
      var s := Step(p, downcase, text[0], false);
      if |p.data| < MAX_WIRE && !p.done && s.Next? {
        RunToAppend(s.p, downcase, text[1..], c);
      }
    }
  }

  /** With more text behind, parsing goes on from where the run got to, or fails with it. */
  lemma {:induction false} ExecRunTo(p: Parser, downcase: bool, text: bytes, rest: bytes)
    requires p.offsets != [] && rest != []
    ensures var r := RunTo(p, downcase, text);
      if r.Some? then
        && Exec(p, downcase, text + rest) == Exec(r.value, downcase, rest)
        && (Overruns(r.value, downcase, rest) ==> Overruns(p, downcase, text + rest))
      else !p.done ==> !Exec(p, downcase, text + rest).GotText?
    decreases |text|
  {
    hide Step, AtBrink;
    if text == [] {
      assert text + rest == rest;
    } else {
      assert (text + rest)[1..] == text[1..] + rest && (text + rest)[0] == text[0];
      StepOffsets(p, downcase, text[0], false);
      var s := Step(p, downcase, text[0], false);
      if |p.data| < MAX_WIRE && !p.done && s.Next? {
        NotDone(p, downcase, text[0]);
        ExecRunTo(s.p, downcase, text[1..], rest);
      }
    }
  }

  lemma NotDone(p: Parser, downcase: bool, c: byte)
    requires p.offsets != [] && !p.done
    ensures var s := Step(p, downcase, c, false); s.Next? ==> !s.p.done
  {
  }

  /** An overrun comes after a run that gets through to its brink. */
  lemma {:induction false} OverrunAt(p: Parser, downcase: bool, text: bytes) returns (k: nat)
    requires p.offsets != [] && Overruns(p, downcase, text)
    ensures k < |text| && RunTo(p, downcase, text[..k]).Some? && AtBrink(RunTo(p, downcase, text[..k]).value, text[k])
    ensures |RunTo(p, downcase, text[..k]).value.data| < MAX_WIRE && !RunTo(p, downcase, text[..k]).value.done
    decreases |text|
  {
    hide Step, AtBrink;
    if AtBrink(p, text[0]) {
      k := 0;
    } else {
      StepOffsets(p, downcase, text[0], false);
      var s := Step(p, downcase, text[0], |text| == 1);
      var j := OverrunAt(s.p, downcase, text[1..]);
      k := j + 1;
      assert text[..k][0] == text[0] && text[..k][1..] == text[1..][..j] && text[k] == text[1..][j];
    }
  }

  lemma {:induction false} RunToHolds(p: Parser, acc: seq<Label>, w: bytes, downcase: bool, text: bytes)
    returns (acc': seq<Label>, w': bytes)
    requires Holds(p, acc, w) && p.offsets != [] && RunTo(p, downcase, text).Some?
    ensures Holds(RunTo(p, downcase, text).value, acc', w')
    decreases |text|
  {
    hide Holds, Step, Valid;
    acc', w' := acc, w;
    if text != [] {
      StepOffsets(p, downcase, text[0], false);
      var a, v := StepHolds(p, acc, w, downcase, text[0], false);
      NotDone(p, downcase, text[0]);
      acc', w' := RunToHolds(Step(p, downcase, text[0], false).p, a, v, downcase, text[1..]);
    }
  }

  /** What a step that ends where a label may start, or inside one, says about the step. */
  lemma StepKinds(p: Parser, downcase: bool, c: byte, last: bool)
    requires p.offsets != [] && !p.done
    ensures var s := Step(p, downcase, c, last);
      && (s.Next? && !s.p.done && s.p.state == FtStart ==> c == DOT && p.state == FtOrdinary && !last)
      && (s.Next? && s.p.state == FtOrdinary && p.state != FtInit ==> s == Step(p, downcase, c, !last) && !s.p.done)
      && (s.Next? && s.p.state == FtOrdinary && p.state == FtInit ==> |s.p.data| == |p.data| + 2)
      && (s.Next? && Escaping(s.p.state) ==> s == Step(p, downcase, c, !last))
      && (s.Next? && !s.p.done ==> s.p.state != FtInit)
  {
  }

  predicate Escaping(s: FtState) {
    s == FtEscape || s == FtInitialEscape || s == FtEscDecimal
  }

  /** A run that is back at the start of a label of a full name ends in a dot that may be left out. */
  lemma BrinkFromRun(text: bytes, downcase: bool, k: nat)
    requires k < |text| && RunTo(InitialParser, downcase, text[..k]).Some?
    requires AtBrink(RunTo(InitialParser, downcase, text[..k]).value, text[k])
    ensures Brink(text, downcase, k)
  {
    hide Step, Holds, Exec, RunTo, FromLabels, Body;
    var q := RunTo(InitialParser, downcase, text[..k]).value;
    RunToNone(InitialParser, downcase);
    NotAtOnce(text, downcase, k);
    var t, c := text[..k - 1], text[k - 1];
    assert text[..k] == t + [c];
    InitialHolds();
    var acc0, w0 := RunToHolds(InitialParser, [], [], downcase, text[..k]);
    Unfinished(q, acc0, w0);
    RunToAppend(InitialParser, downcase, t, c);
    var p := RunTo(InitialParser, downcase, t).value;
    StepKinds(p, downcase, c, false);
    var acc, w := RunToHolds(InitialParser, [], [], downcase, t);
    OrdinaryFacts(p, acc, w, downcase);
    EndRun(p, acc, w, downcase, false);
    EndRun(p, acc, w, downcase, true);
    ExecRunTo(InitialParser, downcase, t, [DOT]);
    FullName(acc + [w]);
    EndsOrdinary(t, downcase);
  }

  lemma NotAtOnce(text: bytes, downcase: bool, k: nat)
    requires k < |text| && RunTo(InitialParser, downcase, text[..k]).Some?
    requires AtBrink(RunTo(InitialParser, downcase, text[..k]).value, text[k])
    ensures k > 0
  {
  }

  lemma RunToNone(p: Parser, downcase: bool)
    requires p.offsets != []
    ensures RunTo(p, downcase, []) == Some(p)
  {
  }

  lemma InitialHolds()
    ensures Holds(InitialParser, [], [])
  {
  }

  lemma OrdinaryFacts(p: Parser, acc: seq<Label>, w: bytes, downcase: bool)
    requires Holds(p, acc, w) && p.state == FtOrdinary && |p.data| < MAX_WIRE
    ensures 1 <= |w| <= MAX_LABEL_LEN && p.offsets != [] && !p.done && |Body(acc)| + |w| + 1 == |p.data|
    ensures |Body(acc + [w])| == |p.data|
    ensures var s := Step(p, downcase, DOT, false); s.Next? && s.p.state == FtStart && |s.p.data| == |p.data|
  {
    Closed(p, acc, w);
    DotHolds(p, acc, w, downcase);
  }

  lemma FullName(ls: seq<Label>)
    requires FitsName(ls)
    ensures |FromLabels(ls).raw| == |Body(ls)| + 1
  {
  }

  /** A run that ends inside a label parses, as it stands, like one that more could follow. */
  lemma EndsOrdinary(t: bytes, downcase: bool)
    requires var r := RunTo(InitialParser, downcase, t); r.Some? && r.value.state == FtOrdinary && |r.value.data| > 2
    ensures Parse(t, downcase) == Exec(RunTo(InitialParser, downcase, t).value, downcase, [])
  {
    hide Step, Finish, RunTo;
    RunToNone(InitialParser, downcase);
    var u, c := t[..|t| - 1], t[|t| - 1];
    assert t == u + [c];
    RunToAppend(InitialParser, downcase, u, c);
    var p := RunTo(InitialParser, downcase, u).value;
    ExecRunTo(InitialParser, downcase, u, [c]);
    StepKinds(p, downcase, c, false);
    InitialHolds();
    var acc, w := RunToHolds(InitialParser, [], [], downcase, u);
    NothingYet(p, acc, w);
    var q := RunTo(InitialParser, downcase, t).value;
    assert [c] + [] == [c];
    ExecStep(p, downcase, c, [], q);
  }

  /** A brink that the text shows is one that the parser gets to. */
  lemma RunFromBrink(text: bytes, downcase: bool, k: nat)
    requires Brink(text, downcase, k)
    ensures RunTo(InitialParser, downcase, text[..k]).Some?
    ensures AtBrink(RunTo(InitialParser, downcase, text[..k]).value, text[k])
  {
    hide Step, Holds, Exec, RunTo, FromLabels, Body;
    var t := text[..k - 1];
    assert text[..k] == t + [DOT];
    ExecRunTo(InitialParser, downcase, t, [DOT]);
    RunToAppend(InitialParser, downcase, t, DOT);
    var p := RunTo(InitialParser, downcase, t).value;
    InitialHolds();
    var acc, w := RunToHolds(InitialParser, [], [], downcase, t);
    Unfinished(p, acc, w);
    if p.state == FtOrdinary {
      OrdinaryEnd(p, acc, w, downcase);
    } else {
      OtherEnds(t, downcase, p, acc, w);
    }
  }

  lemma OrdinaryEnd(p: Parser, acc: seq<Label>, w: bytes, downcase: bool)
    requires Holds(p, acc, w) && p.state == FtOrdinary && FullLength(Exec(p, downcase, [DOT]))
    ensures |p.data| == 254 && var s := Step(p, downcase, DOT, false);
      s.Next? && s.p.state == FtStart && |s.p.data| == 254
  {
    hide Step, Holds, FromLabels, Body;
    Unfinished(p, acc, w);
    if |p.data| < MAX_WIRE {
      OrdinaryFacts(p, acc, w, downcase);
      EndRun(p, acc, w, downcase, false);
      FullName(acc + [w]);
    }
  }

  /** Outside a label, or inside an escape, a dot does not end what parses without it. */
  lemma OtherEnds(t: bytes, downcase: bool, p: Parser, acc: seq<Label>, w: bytes)
    requires RunTo(InitialParser, downcase, t) == Some(p) && Holds(p, acc, w) && p.offsets != []
    requires p.state != FtOrdinary
    ensures !(FullLength(Exec(p, downcase, [DOT])) && Parse(t, downcase).GotText?)
  {
    hide Holds, RunTo;
    Unfinished(p, acc, w);
    RunToNone(InitialParser, downcase);
    if t != [] {
      var u, c := t[..|t| - 1], t[|t| - 1];
      assert t == u + [c];
      RunToAppend(InitialParser, downcase, u, c);
      var p0 := RunTo(InitialParser, downcase, u).value;
      StepKinds(p0, downcase, c, false);
      ExecRunTo(InitialParser, downcase, u, [c]);
      if Escaping(p.state) {
        assert [c] + [] == [c];
        ExecStep(p0, downcase, c, [], p);
      }
    }
  }

  /** Whether a text leads the parser past its length limit. */
  ghost predicate TextOverruns(text: bytes, downcase: bool) {
    exists k: nat :: Brink(text, downcase, k)
  }

  lemma OverrunsTold(text: bytes, downcase: bool)
    ensures Overruns(InitialParser, downcase, text) <==> TextOverruns(text, downcase)
  {
    hide Brink, Exec, Step, AtBrink;
    if Overruns(InitialParser, downcase, text) {
      var k := OverrunAt(InitialParser, downcase, text);
      BrinkFromRun(text, downcase, k);
    }
    if k: nat :| Brink(text, downcase, k) {
      InitialHolds();
      RunFromBrink(text, downcase, k);
      BrinkBound(text, downcase, k);
      var acc, w := RunToHolds(InitialParser, [], [], downcase, text[..k]);
      Unfinished(RunTo(InitialParser, downcase, text[..k]).value, acc, w);
      ExecRunTo(InitialParser, downcase, text[..k], text[k..]);
      assert text[..k] + text[k..] == text;
      BrinkOverruns(RunTo(InitialParser, downcase, text[..k]).value, downcase, text[k..]);
    }
  }

  lemma BrinkBound(text: bytes, downcase: bool, k: nat)
    requires Brink(text, downcase, k)
    ensures 0 < k < |text|
  {
  }

  lemma BrinkOverruns(p: Parser, downcase: bool, rest: bytes)
    requires p.offsets != [] && rest != [] && AtBrink(p, rest[0]) && !p.done
    ensures Overruns(p, downcase, rest)
  {
  }

  /**
    * The parser yields only well-formed names and never panics if and only if the text does
    * not overrun it: on the texts that do, it panics or yields a name of 257 octets.
    */
  lemma ParseSound(text: bytes, downcase: bool)
    ensures var r := Parse(text, downcase);
            (!r.Panic? && (r.GotText? ==> Valid(r.name))) <==> !TextOverruns(text, downcase)
  {
    hide TextOverruns, Overruns, Parse, Valid;
    OverrunSound(text, downcase);
    OverrunsTold(text, downcase);
  }

  // ----- The loops of the library -----

  method StringParse(text: bytes, downcase: bool) returns (r: Parsed)
    ensures r == Parse(text, downcase)
  {
    hide Step, Finish;
    var p, start := InitialParser, 0;
    assert text[0..] == text;
    while |p.data| < MAX_WIRE && start != |text| && !p.done
      invariant 0 <= start <= |text| && p.offsets != []
      invariant Exec(InitialParser, downcase, text) == Exec(p, downcase, text[start..])
      decreases |text| - start
    {
      var c := text[start];
      assert text[start..][0] == c && text[start..][1..] == text[start + 1..];
      start := start + 1;
      assert p.offsets != [] && (Step(p, downcase, c, start == |text|).Next? ==>
        Step(p, downcase, c, start == |text|).p.offsets != []) by {
        StepOffsets(p, downcase, c, start == |text|);
      }
      match Step(p, downcase, c, start == |text|)
      case Stop(e) => return Refused(e);
      case Next(q) => p := q;
    }
    r := Finish(p, |text| - start);
  }

  lemma StepOffsets(p: Parser, downcase: bool, c: byte, last: bool)
    requires p.offsets != []
    ensures var s := Step(p, downcase, c, last); s.Next? ==> s.p.offsets != []
  {
  }

  lemma LabelTextAppend(l: bytes, c: byte)
    ensures LabelText(l + [c]) == LabelText(l) + OctetText(c)
  {
    if l == [] {
      assert l + [c] == [c] && LabelText([c]) == OctetText(c) + [];
    } else {
      assert (l + [c])[1..] == l[1..] + [c];
      LabelTextAppend(l[1..], c);
    }
  }

  lemma {:induction false} LabelsTextAppend(ls: seq<Label>, l: Label)
    ensures LabelsText(ls + [l]) == if ls == [] then LabelText(l) else LabelsText(ls) + [DOT] + LabelText(l)
  {
    if |ls| > 0 {
      assert (ls + [l])[1..] == ls[1..] + [l];
      LabelsTextAppend(ls[1..], l);
    } else {
      assert ls + [l] == [l];
    }
  }

  /** The inner loop of the printer, over the octets of one label. */
  method LabelString(raw: bytes, start: nat, count: byte) returns (text: bytes)
    requires start + count <= |raw|
    ensures text == LabelText(raw[start..start + count])
  {
    hide OctetText;
    text := [];
    for m := 0 to count
      invariant text == LabelText(raw[start..start + m])
    {
      LabelTextAppend(raw[start..start + m], raw[start + m]);
      assert raw[start..start + m] + [raw[start + m]] == raw[start..start + m + 1];
      text := text + OctetText(raw[start + m]);
    }
  }

  /** Prints label by label, walking the encoding. */
  method NameString(name: Name, omitFinalDot: bool) returns (text: bytes)
    requires Valid(name)
    ensures text == Text(Labels(name), omitFinalDot)
  {
    hide Body, FromLabels, FitsName, OctetText, LabelText, Valid;
    ghost var ls := Labels(name);
    text := [];
    var i: nat := 0;
    ghost var k: nat := 0;
    StartsAtZero(ls);
    assert ls[..0] == [];
    while i < |name.raw|
      invariant k <= |ls| && i == Offset(ls, k) < |name.raw| && text == LabelsText(ls[..k]) && (k > 0 ==> text != [])
      decreases |ls| - k
    {
      EntryAt(name, k);
      var count := name.raw[i];
      i := i + 1;
      if count == 0 {
        assert ls[..k] == ls;
        assert LabelsText(ls) + [] == LabelsText(ls);
        if !omitFinalDot || text == [] {
          text := text + [DOT];
        }
        return;
      }
      if text != [] {
        text := text + [DOT];
      }
      var l := LabelString(name.raw, i, count);
      text := text + l;
      i := i + count;
      LabelsTextAppend(ls[..k], ls[k]);
      assert ls[..k] + [ls[k]] == ls[..k + 1];
      MoreText(ls[..k + 1]);
      k := k + 1;
    }
  }

  lemma StartsAtZero(ls: seq<Label>)
    ensures Offset(ls, 0) == 0 && LabelsText([]) == []
  {
  }

  lemma EntryAt(n: Name, k: nat)
    requires Valid(n) && k <= |Labels(n)|
    ensures var o, ls := Offset(Labels(n), k), Labels(n);
            && o < |n.raw| && (n.raw[o] == 0 <==> k == |ls|)
            && (k < |ls| ==>
                  && n.raw[o] == |ls[k]| && o + 1 + |ls[k]| == Offset(ls, k + 1) < |n.raw|
                  && n.raw[o + 1..o + 1 + |ls[k]|] == ls[k])
  {
    var ls := Labels(n);
    if k < |ls| {
      LabelAt(ls, k);
    } else {
      assert ls[..k] == ls;
    }
  }
}
