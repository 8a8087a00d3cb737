/**
 Whole commands, from the introducer to the last byte: operating system commands, private modes, and cancellation.
 */
module Commands {
  import opened Words
  import opened DisplayModel
  import opened Editing
  import opened TerminalModel
  import opened Steps
  import opened Parameters
  import Arithmetic
  import Utf8

  const BEL: u8 := 0x07
  const CAN: u8 := 0x18
  const SUB: u8 := 0x1a
  const BACKSLASH: u8 := '\\' as int

  // ---- Cancellation

  /** CAN, SUB and a byte to discard end any sequence and change nothing but the parser. They lead to the ground state
      exactly when the sequence was not a private one, whose flag they leave. */
  lemma Cancelled(tb: Tables, t: Term, c: u8)
    requires t.Valid() && (c == CAN || c == SUB || t.parser.discardNext)
    ensures var r := PutChar(tb, t, c); Outside(r) && r == t.(parser := r.parser)
    ensures Grounded(PutChar(tb, t, c)) <==> !t.parser.decPrivate
  {
    hide Display.Sized, Ground, Continue;
  }

  // ---- Operating system commands (section 8.3.89 of ECMA-48)

  /** Seven-bit text that neither ends nor cancels a command. */
  predicate CommandText(s: seq<u8>) {
    && (forall i :: 0 <= i < |s| ==> s[i] < 0x80 && s[i] != BEL && s[i] != CAN && s[i] != SUB)
    && (forall i :: 0 < i < |s| ==> !(s[i - 1] == ESC && s[i] == BACKSLASH))
  }

  predicate EndsInEscape(s: seq<u8>) {
    s != [] && s[|s| - 1] == ESC
  }

  /** `u` is the terminal `t` inside an operating system command. */
  ghost predicate InCommand(t: Term, u: Term, escaped: bool) {
    && t.parser.unicodeRemaining == 0 && !t.parser.discardNext
    && u.Valid() && u == t.(parser := t.parser.(escape := true, osc := true, oscEscape := escaped, escapeOffset := u.parser.escapeOffset))
  }

  lemma CommandByte(tb: Tables, t: Term, u: Term, escaped: bool, c: u8)
    requires InCommand(t, u, escaped) && c < 0x80 && c != BEL && c != CAN && c != SUB && !(escaped && c == BACKSLASH)
    ensures InCommand(t, PutChar(tb, u, c), c == ESC)
  {
    StepCases(tb, u, c);
    hide PutChar, Display.Sized;
  }

  lemma {:induction false} CommandRead(tb: Tables, t: Term, u: Term, s: seq<u8>)
    requires InCommand(t, u, false) && u.Valid() && CommandText(s)
    ensures InCommand(t, Run(tb, u, s), EndsInEscape(s))
    decreases |s|
  {
    hide *;
    if s == [] {
      RunNothing(tb, u);
      NoText();
    } else {
      var init, c := s[..|s| - 1], s[|s| - 1];
      TextNext(s);
      CommandRead(tb, t, u, init);
      RunNext(tb, u, init, c);
      InCommandValid(t, Run(tb, u, init), EndsInEscape(init));
      CommandByte(tb, t, Run(tb, u, init), EndsInEscape(init), c);
    }
  }

  lemma NoText()
    ensures !EndsInEscape([])
  {
  }

  lemma TextNext(s: seq<u8>)
    requires s != [] && CommandText(s)
    ensures var init, c := s[..|s| - 1], s[|s| - 1];
      && s == init + [c] && CommandText(init) && (EndsInEscape(s) <==> c == ESC)
      && c < 0x80 && c != BEL && c != CAN && c != SUB && !(EndsInEscape(init) && c == BACKSLASH)
  {
    var init := s[..|s| - 1];
    assert EndsInEscape(init) ==> s[|s| - 2] == ESC;
  }

  lemma InCommandValid(t: Term, u: Term, escaped: bool)
    requires InCommand(t, u, escaped)
    ensures u.Valid()
  {
  }

  /** The byte that ends a command. */
  lemma CommandEnds(tb: Tables, t: Term, u: Term, escaped: bool, c: u8)
    requires Outside(t) && InCommand(t, u, escaped) && (c == BEL || (escaped && c == BACKSLASH))
    ensures var r := PutChar(tb, u, c); Outside(r) && r == t.(parser := r.parser) && r.parser.decPrivate == t.parser.decPrivate
  {
    StepCases(tb, u, c);
    hide PutChar, Display.Sized;
  }

  lemma CommandStarts(tb: Tables, t: Term)
    requires Outside(t)
    ensures InCommand(t, Run(tb, t, [ESC, ']' as int]), false)
  {
    var bracket: u8 := ']' as int;
    var v := PutChar(tb, t, ESC);
    StepCases(tb, t, ESC);
    StepCases(tb, v, bracket);
    RunNext(tb, t, [ESC], bracket);
    RunNext(tb, t, [], ESC);
    assert [ESC] + [bracket] == [ESC, bracket] && [] + [ESC] == [ESC];
    hide Parser.Valid, Display.Sized, PutChar;
  }

  /** An operating system command ends at BEL or at ESC backslash, and does nothing. */
  lemma CommandSwallowed(tb: Tables, t: Term, s: seq<u8>, c: u8)
    requires Outside(t) && CommandText(s) && (c == BEL || (EndsInEscape(s) && c == BACKSLASH))
    ensures var r := Run(tb, t, [ESC, ']' as int] + s + [c]);
      Outside(r) && r == t.(parser := r.parser) && r.parser.decPrivate == t.parser.decPrivate
  {
    hide *;
    var start := [ESC, ']' as int];
    OutsideIs(t);
    CommandStarts(tb, t);
    var u := Run(tb, t, start);
    CommandRead(tb, t, u, s);
    RunAppend(tb, t, start, s);
    CommandEnds(tb, t, Run(tb, u, s), EndsInEscape(s), c);
    RunNext(tb, t, start + s, c);
  }

  lemma OutsideIs(t: Term)
    requires Outside(t)
    ensures t.Valid() && !t.parser.controlSequence
  {
  }

  /** Text in UTF-8 is not part of the command: it is printed as it is outside. */
  lemma CommandPrints(tb: Tables, t: Term, u: Term, escaped: bool, s: seq<u8>)
    requires Outside(t) && InCommand(t, u, escaped) && Utf8.IsSequence(s)
    ensures t.Valid() && u.Valid() && Run(tb, u, s).display == Run(tb, t, s).display == Emit(tb, t, Utf8.Number(s)).display
  {
    hide *;
    OutsideIs(t);
    SameScreen(t, u, escaped);
    Utf8.SequenceDecodes(tb, t, s);
    Utf8.SequenceDecodes(tb, u, s);
    PrintsAlike(tb, t, t, Utf8.Number(s));
    PrintsAlike(tb, t, u, Utf8.Number(s));
  }

  lemma SameScreen(t: Term, u: Term, escaped: bool)
    requires Outside(t) && InCommand(t, u, escaped)
    ensures t.parser.unicodeRemaining == u.parser.unicodeRemaining == 0 && !t.parser.discardNext && !u.parser.discardNext
    ensures u.Valid() && u.display == t.display
  {
  }

  lemma PrintsAlike(tb: Tables, t: Term, u: Term, v: nat)
    requires t.Valid() && u.Valid() && u.display == t.display
    ensures Emit(tb, Utf8.Decoded(u, v), v).display == Emit(tb, t, v).display
  {
    hide Box, Display.Sized, Parser.Valid;
  }

  // ---- Private modes

  /** DECTCEM and the other private modes: 25 as the first parameter shows or hides the cursor. */
  function Moded(d: Display, vs: seq<nat>, c: u8): Display {
    if vs != [] && vs[0] % WORD_MODULUS == 25 && c == 'h' as int then d.(cursorEnabled := true)
    else if vs != [] && vs[0] % WORD_MODULUS == 25 && c == 'l' as int then d.(cursorEnabled := false)
    else d
  }

  /** `u` is the terminal `t` inside a private sequence. */
  ghost predicate InPrivate(t: Term, u: Term) {
    InSequence(u) && u == t.(parser := u.parser) && u.parser.decPrivate && u.parser.gSelect == 0 && !u.parser.csi
  }

  lemma QuestionMark(tb: Tables, t: Term)
    requires Outside(t)
    ensures var w := Run(tb, t, [ESC, '[' as int, '?' as int]); Reads(w, w, Stored([])) && InPrivate(t, w)
  {
    var mark: u8 := '?' as int;
    var bytes: seq<u8> := [ESC, '[' as int];
    Introduced(tb, t);
    var u := Run(tb, t, bytes);
    FirstOffset(tb, t);
    StepCases(tb, u, mark);
    RunNext(tb, t, bytes, mark);
    assert bytes + [mark] == [ESC, '[' as int, '?' as int];
    hide Run, PutChar, Display.Sized, Stored;
  }

  /** The byte after ESC [ is the second one of the sequence. */
  lemma FirstOffset(tb: Tables, t: Term)
    requires Outside(t)
    ensures var p := Run(tb, t, [ESC, '[' as int]).parser; p.escapeOffset == 1 && p.gSelect == 0 && !p.csi
  {
    OpenedByEscape(tb, t);
    hide Run, Parser.Valid, Display.Sized;
  }

  /** A private sequence ends in the ground state, and does nothing but show or hide the cursor. */
  lemma PrivateMode(tb: Tables, t: Term, vs: seq<nat>, c: u8)
    requires Outside(t) && IsFinal(c)
    ensures var r := Run(tb, t, [ESC, '[' as int, '?' as int] + Printed(vs) + [c]);
      Grounded(r) && r == t.(parser := r.parser, display := Moded(t.display, vs, c))
    ensures Moded(t.display, vs, c) == t.display.(cursorEnabled :=
      if vs != [] && vs[0] % 0x1_0000_0000 == 25 && (c == 'h' as int || c == 'l' as int) then c == 'h' as int else t.display.cursorEnabled)
  {
    hide *;
    ModedIs(t.display, vs, c);
    OutsideIs(t);
    QuestionMark(tb, t);
    PrivateRest(tb, t, [ESC, '[' as int, '?' as int], vs, c);
  }

  /** So does an ordinary sequence, whatever it asks for, after a private one was cancelled. */
  lemma TakenAsPrivate(tb: Tables, t: Term, vs: seq<nat>, c: u8)
    requires Outside(t) && t.parser.decPrivate && IsFinal(c)
    ensures var r := Run(tb, t, [ESC, '[' as int] + Printed(vs) + [c]);
      Grounded(r) && r == t.(parser := r.parser, display := Moded(t.display, vs, c))
  {
    hide *;
    OutsideIs(t);
    Introduced(tb, t);
    FirstOffset(tb, t);
    FlagLeft(t, Run(tb, t, [ESC, '[' as int]));
    PrivateRest(tb, t, [ESC, '[' as int], vs, c);
  }

  lemma ModedIs(d: Display, vs: seq<nat>, c: u8)
    ensures Moded(d, vs, c) == d.(cursorEnabled :=
      if vs != [] && vs[0] % 0x1_0000_0000 == 25 && (c == 'h' as int || c == 'l' as int) then c == 'h' as int else d.cursorEnabled)
  {
  }

  lemma FlagLeft(t: Term, u: Term)
    requires t.parser.decPrivate && Reads(u, u, Stored([])) && u == t.(parser := u.parser)
    requires u.parser.decPrivate && u.parser.gSelect == 0 && !u.parser.csi
    ensures InPrivate(t, u)
  {
  }

  lemma PrivateRest(tb: Tables, t: Term, start: seq<u8>, vs: seq<nat>, c: u8)
    requires Outside(t) && t.Valid() && IsFinal(c)
    requires var w := Run(tb, t, start); Reads(w, w, Stored([])) && InPrivate(t, w)
    ensures var r := Run(tb, t, start + Printed(vs) + [c]);
      Grounded(r) && r == t.(parser := r.parser, display := Moded(t.display, vs, c))
  {
    hide *;
    var w := Run(tb, t, start);
    ReadsIs(w, w, Stored([]));
    ListRead(tb, w, w, vs);
    RunAppend(tb, t, start, Printed(vs));
    var u := Run(tb, w, Printed(vs));
    FinalRead(tb, w, u, vs, c);
    StillPrivate(t, w, u, Stored(vs));
    PrivateFinal(tb, t, u, vs, c);
    RunNext(tb, t, start + Printed(vs), c);
  }

  lemma ReadsIs(t: Term, u: Term, g: Reading)
    requires Reads(t, u, g)
    ensures u.Valid()
  {
  }

  lemma StillPrivate(t: Term, w: Term, u: Term, g: Reading)
    requires InPrivate(t, w) && Reads(w, u, g)
    ensures InPrivate(t, u)
  {
    hide Display.Sized, Parser.Valid;
  }

  lemma PrivateFinal(tb: Tables, t: Term, u: Term, vs: seq<nat>, c: u8)
    requires Outside(t) && InPrivate(t, u)
    requires var p := Finish(Advanced(u).parser, c);
      && PutChar(tb, u, c) == Close(FinalByte(tb, Advanced(u).(parser := p), c))
      && p.count == Arithmetic.Min(|vs|, MAX_VALUES)
      && forall i :: 0 <= i < MAX_VALUES ==>
        p.values[i] == if i < |vs| then vs[i] % WORD_MODULUS
                       else if c == 'J' as int || c == 'K' as int || c == 'q' as int then 0 else 1
    ensures var r := PutChar(tb, u, c);
      Grounded(r) && r == t.(parser := r.parser, display := Moded(t.display, vs, c))
  {
    hide PutChar, Display.Sized, Dispatch;
  }

  // ---- A cancelled private sequence

  lemma GroundedIs(t: Term)
    requires Grounded(t)
    ensures Outside(t) && !t.parser.decPrivate
  {
  }

  /** ESC [ J erases from the cursor to the end of the screen. */
  lemma ErasesFromGround(tb: Tables, t: Term)
    requires Grounded(t)
    ensures Run(tb, t, [ESC, '[' as int] + Printed([]) + ['J' as int]).display
      == EraseDisplay(t.display.(scrollEnabled := false), 0).(scrollEnabled := t.display.scrollEnabled)
  {
    hide *;
    var start, erase := [ESC, '[' as int] + Printed([]), 'J' as int;
    GroundedIs(t);
    OutsideIs(t);
    EraseIsFinal();
    RoundTrip(tb, t, [], erase);
    EraseFinal(tb, t, Run(tb, t, start));
    RunNext(tb, t, start, erase);
  }

  lemma EraseIsFinal()
    ensures IsFinal('J' as int) && Printed([]) == []
  {
  }

  lemma EraseFinal(tb: Tables, t: Term, u: Term)
    requires Grounded(t) && InSequence(u) && u == t.(parser := u.parser) && !u.parser.decPrivate
    requires var p := Finish(Advanced(u).parser, 'J' as int);
      && PutChar(tb, u, 'J' as int) == Close(FinalByte(tb, Advanced(u).(parser := p), 'J' as int))
      && forall i :: 0 <= i < MAX_VALUES ==> p.values[i] == 0
    ensures PutChar(tb, u, 'J' as int).display == EraseDisplay(t.display.(scrollEnabled := false), 0).(scrollEnabled := t.display.scrollEnabled)
  {
    hide PutChar, Display.Sized, EraseDisplay;
  }

  /** ESC [ ? CAN does not: it leaves the private flag, and ESC [ J then erases nothing. */
  lemma CancelledPrivate(tb: Tables, t: Term, c: u8)
    requires Grounded(t) && (c == CAN || c == SUB)
    ensures var u := Run(tb, t, [ESC, '[' as int, '?' as int] + [c]);
      && Outside(u) && !Grounded(u) && u.display == t.display
      && var r := Run(tb, u, [ESC, '[' as int] + Printed([]) + ['J' as int]); Grounded(r) && r.display == t.display
  {
    hide *;
    var start := [ESC, '[' as int, '?' as int];
    GroundedIs(t);
    OutsideIs(t);
    QuestionMark(tb, t);
    var w := Run(tb, t, start);
    InPrivateIs(t, w);
    Cancelled(tb, w, c);
    RunNext(tb, t, start, c);
    var u := Run(tb, t, start + [c]);
    FlagStays(tb, w, c);
    OutsideIs(u);
    EraseIsFinal();
    TakenAsPrivate(tb, u, [], 'J' as int);
    NotModed(u.display);
  }

  lemma InPrivateIs(t: Term, u: Term)
    requires InPrivate(t, u)
    ensures u.Valid() && u.parser.decPrivate && u == t.(parser := u.parser)
  {
  }

  lemma FlagStays(tb: Tables, t: Term, c: u8)
    requires t.Valid() && (c == CAN || c == SUB)
    ensures PutChar(tb, t, c).parser.decPrivate == t.parser.decPrivate
  {
    hide Display.Sized, Ground, Continue;
  }

  lemma NotModed(d: Display)
    ensures Moded(d, [], 'J' as int) == d
  {
  }

  // ---- The eight-bit introducer

  const CSI: u8 := 0x9b

  /** After the eight-bit introducer the next byte is lost, whatever it is, and the sequence goes on as after ESC [. */
  lemma EightBitIntroducer(tb: Tables, t: Term, x: u8)
    requires Outside(t) && x != CAN && x != SUB && !(0xc0 <= x <= 0xf7)
    ensures Run(tb, t, [CSI, x]) == Run(tb, t, [ESC, '[' as int])
  {
    hide *;
    OutsideIs(t);
    Opened(tb, t, x);
    OpenedByEscape(tb, t);
  }

  /** The parser once a sequence is open. */
  function Open(t: Term): Term {
    t.(parser := t.parser.(csi := false, escape := true, escapeOffset := 1, values := Zeros(), count := 0, rrr := false, controlSequence := true))
  }

  lemma Opened(tb: Tables, t: Term, x: u8)
    requires Outside(t) && t.Valid() && x != CAN && x != SUB && !(0xc0 <= x <= 0xf7)
    ensures Run(tb, t, [CSI, x]) == Open(t)
  {
    var v := PutChar(tb, t, CSI);
    RunNext(tb, t, [CSI], x);
    RunNext(tb, t, [], CSI);
    assert [CSI] + [x] == [CSI, x] && [] + [CSI] == [CSI];
    assert v == t.(parser := t.parser.(csi := true, escapeOffset := 0, escape := true));
    assert PutChar(tb, v, x) == EscapeParse(tb, v, x);
    hide Parser.Valid, Display.Sized, PutChar, Run, Zeros;
  }

  lemma OpenedByEscape(tb: Tables, t: Term)
    requires Outside(t) && t.Valid()
    ensures Run(tb, t, [ESC, '[' as int]) == Open(t)
  {
    var bracket: u8 := '[' as int;
    var v := PutChar(tb, t, ESC);
    StepCases(tb, t, ESC);
    StepCases(tb, v, bracket);
    RunNext(tb, t, [ESC], bracket);
    RunNext(tb, t, [], ESC);
    assert [ESC] + [bracket] == [ESC, bracket] && [] + [ESC] == [ESC];
    hide Parser.Valid, Display.Sized, PutChar, Zeros;
  }

  /** So any bytes after it do what they do after ESC [ without their first one. */
  lemma EightBitLosesOne(tb: Tables, t: Term, s: seq<u8>)
    requires Outside(t) && s != [] && s[0] != CAN && s[0] != SUB && !(0xc0 <= s[0] <= 0xf7)
    ensures Run(tb, t, [CSI] + s) == Run(tb, t, [ESC, '[' as int] + s[1..])
  {
    hide *;
    OutsideIs(t);
    EightBitIntroducer(tb, t, s[0]);
    RunAppend(tb, t, [CSI, s[0]], s[1..]);
    RunAppend(tb, t, [ESC, '[' as int], s[1..]);
    assert [CSI] + s == [CSI, s[0]] + s[1..];
  }

  /** The shortest failing input: a final byte alone is not seen. */
  lemma EightBitFails(tb: Tables, t: Term, c: u8)
    requires Outside(t) && IsFinal(c)
    ensures var r := Run(tb, t, [CSI, c]); InSequence(r) && r.display == t.display
  {
    hide *;
    OutsideIs(t);
    FinalIs(c);
    EightBitIntroducer(tb, t, c);
    Introduced(tb, t);
    var u := Run(tb, t, [ESC, '[' as int]);
    ReadsParts(u, u, Stored([]));
  }

  lemma FinalIs(c: u8)
    requires IsFinal(c)
    ensures c != CAN && c != SUB && !(0xc0 <= c <= 0xf7)
  {
  }
}
