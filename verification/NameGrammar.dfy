/**
  * Which texts are names, without the state machine: labels are spelled octet by octet, plainly
  * or escaped, and parted by dots.
  */
module NameGrammar {
  import opened Octets
  import opened Names
  import opened NameWire
  import opened NameText

  /** What a text begins with: the spelling of an octet, a dot, or neither. */
  datatype Piece = Octet(c: byte, n: nat) | Period | Broken

  predicate Digits(text: bytes)
    requires |text| >= 4
  {
    IsDigit(text[1]) && IsDigit(text[2]) && IsDigit(text[3])
  }

  function Value(text: bytes): int
    requires |text| >= 4
  {
    (text[1] as int - 0x30) * 100 + (text[2] as int - 0x30) * 10 + (text[3] as int - 0x30)
  }

  function PieceOf(text: bytes): (r: Piece)
    requires text != []
    ensures r.Octet? ==> 0 < r.n <= |text|
  {
    if text[0] == 0x2e then Period
    else if text[0] != 0x5c then Octet(text[0], 1)
    else if |text| == 1 then Broken
    else if !IsDigit(text[1]) then Octet(text[1], 2)
    else if |text| >= 4 && Digits(text) && 0 <= Value(text) <= 255 then Octet(Value(text), 4)
    else Broken
  }

  /** A text that goes on inside a label: with the octets `v`, and then the labels `more`. */
  predicate Goes(text: bytes, v: bytes, more: seq<Label>)
    decreases |text|
  {
    if text == [] then v == [] && more == []
    else
      match PieceOf(text)
      case Broken => false
      case Period => v == [] && if |text| == 1 then more == [] else Begins(text[1..], more)
      case Octet(c, n) => v != [] && v[0] == c && Goes(text[n..], v[1..], more)
  }

  /** A text of labels, the first of which does not begin with an escaped bracket. */
  predicate Begins(text: bytes, ls: seq<Label>)
    decreases |text|
  {
    && text != [] && ls != [] && !(|text| > 1 && text[0] == 0x5c && text[1] == 0x5b)
    && var p := PieceOf(text);
    && p.Octet? && ls[0][0] == p.c && Goes(text[p.n..], ls[0][1..], ls[1..])
  }

  // ----- The parser on one piece -----

  /** The parser is inside a label. */
  ghost predicate Inside(p: Parser, acc: seq<Label>, w: bytes) {
    Holds(p, acc, w) && p.state == FtOrdinary && |p.data| <= MAX_WIRE
  }

  lemma ExecNext(p: Parser, downcase: bool, text: bytes)
    requires p.offsets != [] && |p.data| < MAX_WIRE && !p.done && text != []
    ensures var s := Step(p, downcase, text[0], |text| == 1);
      if s.Stop? then Exec(p, downcase, text).Refused?
      else s.p.offsets != [] && Exec(p, downcase, text) == Exec(s.p, downcase, text[1..])
  {
    hide Step;
    StepOffsets(p, downcase, text[0], |text| == 1);
  }

  lemma ExecEnd(p: Parser, downcase: bool)
    requires p.offsets != [] && !p.done && p.state != FtOrdinary && |p.data| < MAX_WIRE
    ensures Exec(p, downcase, []).Refused?
  {
  }

  /** An octet joins the label, unless the label is full. */
  lemma PushRuns(p: Parser, acc: seq<Label>, w: bytes, downcase: bool, c: byte) returns (q: Parser)
    requires Holds(p, acc, w) && InLabel(p.state) && |p.data| < MAX_WIRE
    ensures var s := Push(p, downcase, c);
      if |w| == MAX_LABEL_LEN then s.Stop?
      else s == Next(q) && Inside(q, acc, w + [FoldOctet(downcase, c)]) && |q.data| == |p.data| + 1
  {
    hide Body;
    PushHolds(p, acc, w, downcase, c);
    var s := Push(p, downcase, c);
    q := if s.Next? then s.p else p;
  }

  /** What running the text of a piece comes to. */
  ghost predicate Took(r: Parsed, q: Parser, acc: seq<Label>, w: bytes, downcase: bool, c: byte, rest: bytes) {
    if |w| == MAX_LABEL_LEN then r.Refused?
    else Inside(q, acc, w + [FoldOctet(downcase, c)]) && q.offsets != [] && r == Exec(q, downcase, rest)
  }

  /** A digit that is not the last of the three. */
  lemma DigitRuns(p: Parser, acc: seq<Label>, w: bytes, downcase: bool, text: bytes) returns (q: Parser)
    requires Holds(p, acc, w) && |p.data| < MAX_WIRE && text != []
    requires p.state == FtEscape || p.state == FtInitialEscape || (p.state == FtEscDecimal && p.digits == 1)
    requires text[0] != BRACKET || p.state != FtInitialEscape
    requires p.state != FtEscDecimal ==> IsDigit(text[0])
    ensures p.offsets != []
    ensures !IsDigit(text[0]) ==> Exec(p, downcase, text).Refused?
    ensures IsDigit(text[0]) ==>
      && q.offsets != [] && Holds(q, acc, w) && q.state == FtEscDecimal && q.data == p.data
      && Exec(p, downcase, text) == Exec(q, downcase, text[1..])
      && (if p.state == FtEscDecimal then q.digits == 2 && q.value == p.value * 10 + (text[0] - 0x30)
          else q.digits == 1 && q.value == text[0] - 0x30)
  {
    hide Body, Exec;
    ExecNext(p, downcase, text);
    var s := Step(p, downcase, text[0], |text| == 1);
    q := if s.Next? then s.p else p;
  }

  /** The third digit. */
  lemma ThirdRuns(p: Parser, acc: seq<Label>, w: bytes, downcase: bool, text: bytes) returns (q: Parser)
    requires Holds(p, acc, w) && |p.data| < MAX_WIRE && text != [] && p.state == FtEscDecimal && p.digits == 2
    ensures p.offsets != []
    ensures var v := p.value * 10 + (text[0] as int - 0x30);
      if !IsDigit(text[0]) || v > 255 then Exec(p, downcase, text).Refused?
      else 0 <= v && Took(Exec(p, downcase, text), q, acc, w, downcase, v, text[1..])
  {
    hide Body, Exec;
    ExecNext(p, downcase, text);
    q := p;
    if IsDigit(text[0]) {
      var v := p.value * 10 + (text[0] - 0x30);
      if v <= 255 {
        var t := p.(value := v, digits := 3, state := FtEscape);
        assert Holds(t, acc, w);
        q := PushRuns(t, acc, w, downcase, v);
      }
    }
  }

  /** Three digits, or what is wrong with them. */
  lemma DecimalRuns(p: Parser, acc: seq<Label>, w: bytes, downcase: bool, text: bytes) returns (q: Parser)
    requires Holds(p, acc, w) && |p.data| < MAX_WIRE && (p.state == FtEscape || p.state == FtInitialEscape)
    requires text != [] && IsDigit(text[0])
    ensures p.offsets != []
    ensures var full := [BACKSLASH] + text;
      if |full| >= 4 && Digits(full) && 0 <= Value(full) <= 255
      then Took(Exec(p, downcase, text), q, acc, w, downcase, Value(full), text[3..])
      else Exec(p, downcase, text).Refused?
  {
    hide Body, Exec, Holds, Took;
    var p1 := DigitRuns(p, acc, w, downcase, text);
    q := p;
    Unfinished(p1, acc, w);
    if |text| == 1 {
      ExecEnd(p1, downcase);
      assert text[1..] == [];
    } else {
      var p2 := DigitRuns(p1, acc, w, downcase, text[1..]);
      if IsDigit(text[1]) {
        Unfinished(p2, acc, w);
        assert text[1..][1..] == text[2..];
        if |text| == 2 {
          ExecEnd(p2, downcase);
          assert text[2..] == [];
        } else {
          q := ThirdRuns(p2, acc, w, downcase, text[2..]);
          assert text[2..][1..] == text[3..];
        }
      }
    }
  }

  /** What follows a backslash. */
  lemma EscapeRuns(p: Parser, acc: seq<Label>, w: bytes, downcase: bool, text: bytes) returns (q: Parser)
    requires Holds(p, acc, w) && |p.data| < MAX_WIRE && (p.state == FtEscape || p.state == FtInitialEscape)
    requires text != [] && text[0] == BRACKET ==> p.state != FtInitialEscape
    ensures p.offsets != []
    ensures match PieceOf([BACKSLASH] + text)
      case Octet(c, n) => 2 <= n && Took(Exec(p, downcase, text), q, acc, w, downcase, c, text[n - 1..])
      case _ => Exec(p, downcase, text).Refused?
  {
    hide Body, Exec, Holds, Took, Digits, Value;
    Unfinished(p, acc, w);
    q := p;
    if text == [] {
      ExecEnd(p, downcase);
    } else if IsDigit(text[0]) {
      q := DecimalRuns(p, acc, w, downcase, text);
    } else {
      q := SignRuns(p, acc, w, downcase, text);
    }
  }

  lemma SignRuns(p: Parser, acc: seq<Label>, w: bytes, downcase: bool, text: bytes) returns (q: Parser)
    requires Holds(p, acc, w) && |p.data| < MAX_WIRE && (p.state == FtEscape || p.state == FtInitialEscape)
    requires text != [] && !IsDigit(text[0]) && (text[0] == BRACKET ==> p.state != FtInitialEscape)
    ensures p.offsets != [] && Took(Exec(p, downcase, text), q, acc, w, downcase, text[0], text[1..])
  {
    hide Body, Exec, Holds;
    Unfinished(p, acc, w);
    ExecNext(p, downcase, text);
    q := PushRuns(p, acc, w, downcase, text[0]);
  }

  /** One piece of a label that has begun. */
  lemma PieceRuns(p: Parser, acc: seq<Label>, w: bytes, downcase: bool, text: bytes) returns (q: Parser)
    requires Inside(p, acc, w) && |p.data| < MAX_WIRE && text != [] && !PieceOf(text).Period?
    ensures p.offsets != []
    ensures match PieceOf(text)
      case Octet(c, n) => Took(Exec(p, downcase, text), q, acc, w, downcase, c, text[n..])
      case _ => Exec(p, downcase, text).Refused?
  {
    hide Body, Exec, Took, Digits, Value;
    Unfinished(p, acc, w);
    ExecNext(p, downcase, text);
    if text[0] == BACKSLASH {
      var e := p.(state := FtEscape);
      assert Holds(e, acc, w);
      q := EscapeRuns(e, acc, w, downcase, text[1..]);
      assert [BACKSLASH] + text[1..] == text;
      var n := if PieceOf(text).Octet? then PieceOf(text).n else 2;
      assert n >= 1 && n <= |text| ==> text[1..][n - 1..] == text[n..];
    } else {
      q := PlainRuns(p, acc, w, downcase, text);
    }
  }

  lemma PlainRuns(p: Parser, acc: seq<Label>, w: bytes, downcase: bool, text: bytes) returns (q: Parser)
    requires Inside(p, acc, w) && |p.data| < MAX_WIRE && text != [] && text[0] != DOT && text[0] != BACKSLASH
    ensures p.offsets != [] && Took(Exec(p, downcase, text), q, acc, w, downcase, text[0], text[1..])
  {
    hide Body, Exec;
    Unfinished(p, acc, w);
    ExecNext(p, downcase, text);
    q := PushRuns(p, acc, w, downcase, text[0]);
  }

  /** Where a label may begin; at the start of the text a lone dot or at sign is no label. */
  ghost predicate Outside(p: Parser, acc: seq<Label>, text: bytes) {
    && Holds(p, acc, []) && !InLabel(p.state) && text != []
    && (p.state == FtInit && |text| == 1 ==> text[0] != DOT && text[0] != AT)
  }

  predicate Bracketed(text: bytes) {
    |text| > 1 && text[0] == 0x5c && text[1] == 0x5b
  }

  lemma OutsideFacts(p: Parser, acc: seq<Label>, text: bytes)
    requires Outside(p, acc, text)
    ensures p.offsets != [] && !p.done && |p.data| == |Body(acc)| <= 254
  {
  }

  /** The first piece of a label. */
  lemma StartRuns(p: Parser, acc: seq<Label>, downcase: bool, text: bytes) returns (q: Parser)
    requires Outside(p, acc, text) && |Body(acc)| <= 253
    ensures p.offsets != []
    ensures if PieceOf(text).Octet? && !Bracketed(text)
      then Took(Exec(p, downcase, text), q, acc, [], downcase, PieceOf(text).c, text[PieceOf(text).n..])
      else Exec(p, downcase, text).Refused?
  {
    hide Body, Exec, Took, Digits, Value;
    OutsideFacts(p, acc, text);
    ExecNext(p, downcase, text);
    if text[0] == BACKSLASH {
      q := StartEscape(p, acc, downcase, text);
    } else if text[0] != DOT {
      q := StartPlain(p, acc, downcase, text);
    } else {
      q := p;
    }
  }

  lemma StartPlain(p: Parser, acc: seq<Label>, downcase: bool, text: bytes) returns (q: Parser)
    requires Outside(p, acc, text) && |Body(acc)| <= 253 && text[0] != DOT && text[0] != BACKSLASH
    ensures p.offsets != [] && Took(Exec(p, downcase, text), q, acc, [], downcase, text[0], text[1..])
  {
    hide Body, Exec;
    OutsideFacts(p, acc, text);
    ExecNext(p, downcase, text);
    FirstHolds(p, acc, downcase, text[0], |text| == 1);
    q := StepStart(p, downcase, text[0], |text| == 1).p;
    assert [] + [FoldOctet(downcase, text[0])] == [FoldOctet(downcase, text[0])];
  }

  lemma StartEscape(p: Parser, acc: seq<Label>, downcase: bool, text: bytes) returns (q: Parser)
    requires Outside(p, acc, text) && |Body(acc)| <= 253 && text[0] == BACKSLASH
    ensures p.offsets != []
    ensures if PieceOf(text).Octet? && !Bracketed(text)
      then Took(Exec(p, downcase, text), q, acc, [], downcase, PieceOf(text).c, text[PieceOf(text).n..])
      else Exec(p, downcase, text).Refused?
  {
    hide Body, Exec, Took, Digits, Value;
    OutsideFacts(p, acc, text);
    ExecNext(p, downcase, text);
    var e := p.(data := p.data + [0], count := 0, state := FtInitialEscape);
    BeginHolds(p, acc, FtInitialEscape);
    assert Step(p, downcase, text[0], |text| == 1) == Next(e);
    assert [BACKSLASH] + text[1..] == text;
    if Bracketed(text) {
      q := e;
      ExecNext(e, downcase, text[1..]);
    } else {
      q := EscapeRuns(e, acc, [], downcase, text[1..]);
      var n := if PieceOf(text).Octet? then PieceOf(text).n else 2;
      assert 1 <= n <= |text| ==> text[1..][n - 1..] == text[n..];
    }
  }

  /** With 254 octets there, no further label makes a name. */
  lemma StartFull(p: Parser, acc: seq<Label>, downcase: bool, text: bytes)
    requires Outside(p, acc, text) && |Body(acc)| == 254
    ensures p.offsets != [] && var r := Exec(p, downcase, text); r.GotText? ==> !Valid(r.name)
  {
    hide Body, Exec, Valid;
    OutsideFacts(p, acc, text);
    NothingYet(p, acc, []);
    ExecNext(p, downcase, text);
    if text[0] == BACKSLASH {
      var e := p.(data := p.data + [0], count := 0, state := FtInitialEscape);
      FullStops(e, downcase, text[1..]);
    } else if text[0] != DOT {
      Overrun(p, acc, [], downcase, text);
      if Exec(p, downcase, text).GotText? {
        LongIsInvalid(Exec(p, downcase, text).name);
      }
    }
  }

  lemma FullStops(p: Parser, downcase: bool, text: bytes)
    requires p.offsets != [] && !p.done && |p.data| == MAX_WIRE
    ensures Exec(p, downcase, text) == Refused(TooLong)
  {
  }

  // ----- Whole texts -----

  /** The labels read so far, the label being read with the rest `v` of it, and more labels. */
  ghost predicate Makes(r: Parsed, acc: seq<Label>, w: bytes, v: bytes, more: seq<Label>, downcase: bool) {
    && 0 < |w| + |v| <= MAX_LABEL_LEN
    && var ls: seq<Label> := acc + [w + FoldLabel(downcase, v)] + FoldLabels(downcase, more);
    FitsName(ls) && r == GotText(FromLabels(ls))
  }

  lemma DotRuns(p: Parser, acc: seq<Label>, w: Label, downcase: bool, text: bytes) returns (q: Parser)
    requires Inside(p, acc, w) && |p.data| < MAX_WIRE && text != [] && text[0] == DOT
    ensures p.offsets != []
    ensures |text| == 1 ==> FitsName(acc + [w]) && Exec(p, downcase, text) == GotText(FromLabels(acc + [w]))
    ensures |text| > 1 ==>
      Outside(q, acc + [w], text[1..]) && q.offsets != [] && Exec(p, downcase, text) == Exec(q, downcase, text[1..])
  {
    hide Body, FromLabels;
    Unfinished(p, acc, w);
    OpenFacts(p, acc, w);
    DotHolds(p, acc, w, downcase);
    ExecNext(p, downcase, text);
    q := StepOrdinary(p, downcase, DOT, |text| == 1).p;
    if |text| == 1 {
      assert text[1..] == [];
    }
  }

  lemma EndRuns(p: Parser, acc: seq<Label>, w: Label, downcase: bool)
    requires Inside(p, acc, w) && |p.data| < MAX_WIRE
    ensures p.offsets != [] && FitsName(acc + [w]) && Exec(p, downcase, []) == GotText(FromLabels(acc + [w]))
  {
    hide Body, FromLabels;
    OpenFacts(p, acc, w);
    EndRun(p, acc, w, downcase, true);
  }

  lemma MakesEnd(r: Parsed, acc: seq<Label>, w: Label, downcase: bool)
    requires FitsName(acc + [w]) && r == GotText(FromLabels(acc + [w]))
    ensures Makes(r, acc, w, [], [], downcase)
  {
    var more: seq<Label> := [];
    assert w + FoldLabel(downcase, []) == w && FoldLabels(downcase, more) == more;
    assert acc + [w] + more == acc + [w];
  }

  /** One octet more in the label, one less to come. */
  lemma MakesOctet(r: Parsed, acc: seq<Label>, w: bytes, c: byte, v: bytes, more: seq<Label>, downcase: bool)
    ensures Makes(r, acc, w + [FoldOctet(downcase, c)], v, more, downcase) <==>
      Makes(r, acc, w, [c] + v, more, downcase)
  {
    assert FoldLabel(downcase, [c] + v) == [FoldOctet(downcase, c)] + FoldLabel(downcase, v);
    assert w + ([FoldOctet(downcase, c)] + FoldLabel(downcase, v))
      == w + [FoldOctet(downcase, c)] + FoldLabel(downcase, v);
  }

  /** What the labels of a text make, with those before them. */
  ghost predicate MakesAll(r: Parsed, acc: seq<Label>, ls: seq<Label>, downcase: bool) {
    FitsName(acc + FoldLabels(downcase, ls)) && r == GotText(FromLabels(acc + FoldLabels(downcase, ls)))
  }

  lemma MakesNext(r: Parsed, acc: seq<Label>, w: Label, more: seq<Label>, downcase: bool)
    ensures MakesAll(r, acc + [w], more, downcase) <==> Makes(r, acc, w, [], more, downcase)
  {
    assert w + FoldLabel(downcase, []) == w;
  }

  lemma MakesFirst(r: Parsed, acc: seq<Label>, c: byte, v: bytes, more: seq<Label>, downcase: bool)
    requires |v| < MAX_LABEL_LEN
    ensures Makes(r, acc, [FoldOctet(downcase, c)], v, more, downcase) <==>
      MakesAll(r, acc, [[c] + v] + more, downcase)
  {
    var l: Label := [c] + v;
    assert FoldLabel(downcase, l) == [FoldOctet(downcase, c)] + FoldLabel(downcase, v);
    assert FoldLabels(downcase, [l] + more) == [FoldLabel(downcase, l)] + FoldLabels(downcase, more);
    assert acc + ([FoldLabel(downcase, l)] + FoldLabels(downcase, more))
      == acc + [FoldLabel(downcase, l)] + FoldLabels(downcase, more);
  }

  lemma InsideFacts(p: Parser, acc: seq<Label>, w: bytes)
    requires Inside(p, acc, w)
    ensures p.offsets != [] && !p.done && 0 < |w| <= MAX_LABEL_LEN && |p.data| == |Body(acc)| + 1 + |w|
  {
  }

  /** A text that follows the grammar is read. */
  lemma {:induction false} GoesRun(p: Parser, acc: seq<Label>, w: bytes, downcase: bool, text: bytes, v: bytes,
                                   more: seq<Label>)
    requires Inside(p, acc, w) && Goes(text, v, more)
    requires |w| + |v| <= MAX_LABEL_LEN && |Body(acc)| + 1 + |w| + |v| + |Body(more)| <= 254
    ensures p.offsets != [] && Makes(Exec(p, downcase, text), acc, w, v, more, downcase)
    decreases |text|
  {
    hide Body, Exec, Inside, Makes, Took, MakesAll;
    InsideFacts(p, acc, w);
    var r := Exec(p, downcase, text);
    if text == [] {
      EndRuns(p, acc, w, downcase);
      MakesEnd(r, acc, w, downcase);
    } else if PieceOf(text).Period? {
      var q := DotRuns(p, acc, w, downcase, text);
      if |text| == 1 {
        MakesEnd(r, acc, w, downcase);
      } else {
        BodyNext(acc, w);
        BeginRun(q, acc + [w], downcase, text[1..], more);
        MakesNext(r, acc, w, more, downcase);
      }
    } else {
      var q := PieceRuns(p, acc, w, downcase, text);
      var c, n := PieceOf(text).c, PieceOf(text).n;
      TookMeans(r, q, acc, w, downcase, c, text[n..]);
      GoesRun(q, acc, w + [FoldOctet(downcase, c)], downcase, text[n..], v[1..], more);
      MakesOctet(r, acc, w, c, v[1..], more, downcase);
      assert [c] + v[1..] == v;
    }
  }

  lemma TookMeans(r: Parsed, q: Parser, acc: seq<Label>, w: bytes, downcase: bool, c: byte, rest: bytes)
    requires Took(r, q, acc, w, downcase, c, rest)
    ensures if |w| == MAX_LABEL_LEN then r.Refused?
      else Inside(q, acc, w + [FoldOctet(downcase, c)]) && q.offsets != [] && r == Exec(q, downcase, rest)
  {
  }

  lemma BodyNext(acc: seq<Label>, w: Label)
    ensures |Body(acc + [w])| == |Body(acc)| + 1 + |w|
  {
    BodyConcat(acc, [w]);
    assert Body([w]) == [|w| as byte] + w + [];
  }

  lemma BodyFirst(ls: seq<Label>)
    requires ls != []
    ensures |Body(ls)| == 1 + |ls[0]| + |Body(ls[1..])|
  {
  }

  lemma {:induction false} BeginRun(p: Parser, acc: seq<Label>, downcase: bool, text: bytes, ls: seq<Label>)
    requires Outside(p, acc, text) && Begins(text, ls) && |Body(acc)| + |Body(ls)| <= 254
    ensures p.offsets != [] && MakesAll(Exec(p, downcase, text), acc, ls, downcase)
    decreases |text|
  {
    hide Body, Exec, Inside, Makes, Took, MakesAll, Outside, Goes;
    BodyFirst(ls);
    var c, n := PieceOf(text).c, PieceOf(text).n;
    var q := StartRuns(p, acc, downcase, text);
    var r, v, more := Exec(p, downcase, text), ls[0][1..], ls[1..];
    TookMeans(r, q, acc, [], downcase, c, text[n..]);
    assert [] + [FoldOctet(downcase, c)] == [FoldOctet(downcase, c)];
    GoesRun(q, acc, [FoldOctet(downcase, c)], downcase, text[n..], v, more);
    MakesFirst(r, acc, c, v, more, downcase);
    assert [c] + v == ls[0] && [ls[0]] + more == ls;
  }

  // ----- And back -----

  ghost predicate Good(r: Parsed) {
    r.GotText? && Valid(r.name)
  }

  /** A text that is read follows the grammar. */
  lemma {:induction false} GoesRead(p: Parser, acc: seq<Label>, w: bytes, downcase: bool, text: bytes)
    returns (v: bytes, more: seq<Label>)
    requires p.offsets != [] && Inside(p, acc, w) && Good(Exec(p, downcase, text))
    ensures Goes(text, v, more) && Makes(Exec(p, downcase, text), acc, w, v, more, downcase)
    decreases |text|
  {
    hide Body, Exec, Inside, Makes, Took, MakesAll, Valid;
    InsideFacts(p, acc, w);
    InsideBound(p, acc, w);
    v, more := [], [];
    var r := Exec(p, downcase, text);
    if |p.data| == MAX_WIRE {
      FullStops(p, downcase, text);
    } else if text == [] {
      EndRuns(p, acc, w, downcase);
      MakesEnd(r, acc, w, downcase);
    } else if PieceOf(text).Period? {
      var q := DotRuns(p, acc, w, downcase, text);
      if |text| == 1 {
        MakesEnd(r, acc, w, downcase);
      } else {
        more := BeginRead(q, acc + [w], downcase, text[1..]);
        MakesNext(r, acc, w, more, downcase);
      }
    } else {
      var q := PieceRuns(p, acc, w, downcase, text);
      if PieceOf(text).Octet? {
        var c, n := PieceOf(text).c, PieceOf(text).n;
        TookMeans(r, q, acc, w, downcase, c, text[n..]);
        v, more := GoesRead(q, acc, w + [FoldOctet(downcase, c)], downcase, text[n..]);
        MakesOctet(r, acc, w, c, v, more, downcase);
        assert ([c] + v)[1..] == v;
        v := [c] + v;
      }
    }
  }

  lemma InsideBound(p: Parser, acc: seq<Label>, w: bytes)
    requires Inside(p, acc, w)
    ensures |p.data| <= MAX_WIRE
  {
  }

  lemma {:induction false} BeginRead(p: Parser, acc: seq<Label>, downcase: bool, text: bytes) returns (ls: seq<Label>)
    requires p.offsets != [] && Outside(p, acc, text) && Good(Exec(p, downcase, text))
    ensures Begins(text, ls) && MakesAll(Exec(p, downcase, text), acc, ls, downcase)
    decreases |text|
  {
    hide Body, Exec, Inside, Makes, Took, MakesAll, Valid, Outside, Goes;
    OutsideFacts(p, acc, text);
    OutsideText(p, acc, text);
    ls := [];
    if |Body(acc)| == 254 {
      StartFull(p, acc, downcase, text);
    } else {
      var q := StartRuns(p, acc, downcase, text);
      if PieceOf(text).Octet? && !Bracketed(text) {
        var c, n := PieceOf(text).c, PieceOf(text).n;
        var r := Exec(p, downcase, text);
        TookMeans(r, q, acc, [], downcase, c, text[n..]);
        assert [] + [FoldOctet(downcase, c)] == [FoldOctet(downcase, c)];
        var v, more := GoesRead(q, acc, [FoldOctet(downcase, c)], downcase, text[n..]);
        MakesBound(r, acc, [FoldOctet(downcase, c)], v, more, downcase);
        MakesFirst(r, acc, c, v, more, downcase);
        ls := [[c] + v] + more;
        assert ls[0][1..] == v && ls[1..] == more;
      }
    }
  }

  lemma OutsideText(p: Parser, acc: seq<Label>, text: bytes)
    requires Outside(p, acc, text)
    ensures text != []
  {
  }

  lemma MakesBound(r: Parsed, acc: seq<Label>, w: bytes, v: bytes, more: seq<Label>, downcase: bool)
    requires Makes(r, acc, w, v, more, downcase)
    ensures |w| + |v| <= MAX_LABEL_LEN
  {
  }

  /** A text of labels that fit a name is parsed to them, in lower case if that is asked for. */
  lemma GrammarRead(text: bytes, downcase: bool, ls: seq<Label>)
    requires Begins(text, ls) && FitsName(ls) && text != [0x40]
    ensures FitsName(FoldLabels(downcase, ls)) && Parse(text, downcase) == GotText(FromLabels(FoldLabels(downcase, ls)))
  {
    hide Body, Exec, FromLabels, Goes;
    var none: seq<Label> := [];
    assert Holds(InitialParser, none, []) && Body(none) == [] by {
      Nothing();
    }
    assert |text| == 1 ==> text == [text[0]];
    BeginRun(InitialParser, none, downcase, text, ls);
    assert none + FoldLabels(downcase, ls) == FoldLabels(downcase, ls);
  }

  lemma Nothing()
    ensures Holds(InitialParser, [], []) && Body([]) == []
  {
  }

  /** And every text that is parsed to a name, but for the two of the root, is such a text. */
  lemma GrammarTells(text: bytes, downcase: bool) returns (ls: seq<Label>)
    requires Parse(text, downcase).GotText? && Valid(Parse(text, downcase).name) && text != [0x2e] && text != [0x40]
    ensures Begins(text, ls) && FitsName(ls) && FitsName(FoldLabels(downcase, ls))
    ensures Parse(text, downcase).name == FromLabels(FoldLabels(downcase, ls))
  {
    hide Body, Exec, FromLabels, Goes, Valid;
    Nothing();
    EmptyText(downcase);
    assert |text| == 1 ==> text == [text[0]];
    var none: seq<Label> := [];
    ls := BeginRead(InitialParser, none, downcase, text);
    FoldLabelsSame(downcase, ls);
    assert none + FoldLabels(downcase, ls) == FoldLabels(downcase, ls);
  }

  lemma EmptyText(downcase: bool)
    ensures Parse([], downcase).Refused?
  {
  }
}
