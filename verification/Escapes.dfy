/**
 What single bytes and two-byte escape sequences do, from the ground state on.
 */
module Escapes {
  import opened Words
  import opened DisplayModel
  import opened Editing
  import opened ControlForms
  import opened TerminalModel
  import opened Steps
  import opened Parameters
  import opened Commands
  import Sequences
  import Arithmetic
  import BackendForms
  import Utf8

  // ---- Single bytes

  /** Control characters: BS, HT, LF, VT, FF, CR, SO and SI act, NUL, BEL and DEL do not. A tabulator whose stop is at
      column 2^31 is taken for a negative position. */
  lemma ControlActs(tb: Tables, t: Term, c: u8, x: nat, y: nat)
    requires Grounded(t) && (c == 0x00 || 0x07 <= c <= 0x0f || c == 0x7f)
    requires x == Arithmetic.Min(t.display.cx, t.display.cols - 1) && y == Arithmetic.Min(t.display.cy, t.display.rows - 1)
    ensures t.display.Sized() && t.display.top < t.display.bottom
    ensures var r, d := PutChar(tb, t, c), t.display;
      && Grounded(r)
      && (c == 0x00 || c == 0x07 || c == 0x7f ==> r == t)
      && (c == 0x08 ==> r == t.(display := d.(cx := Arithmetic.Max(x - 1, 0), cy := y)))
      && (c == 0x09 && (x / 8 + 1) * 8 < 0x8000_0000 ==> r == t.(display := d.(cx := Arithmetic.Min((x / 8 + 1) * 8, d.cols - 1), cy := y)))
      && (c == 0x0a || c == 0x0b || c == 0x0c ==> var x' := if t.onlcr then 0 else x;
          r == t.(display := if y == d.bottom - 1 then d.Scroll().(cx := x', cy := y) else d.(cx := x', cy := Arithmetic.Min(y + 1, d.rows - 1))))
      && (c == 0x0d ==> r == t.(display := d.(cx := 0, cy := y)))
      && (c == 0x0e ==> r == t.(style := t.style.(charset := 1)))
      && (c == 0x0f ==> r == t.(style := t.style.(charset := 0)))
  {
    hide *;
    GroundParts(t);
    Sequences.DisplayIs(t.display);
    Sequences.SeenAt(t.display);
    ControlReached(tb, t, c);
    if c == 0x08 || c == 0x0d {
      LeftForms(t.display);
    } else if c == 0x09 {
      TabExact(t.display);
    } else if c == 0x0a || c == 0x0b || c == 0x0c {
      LineFeedForm(t.display, if t.onlcr then 0 else x);
    }
  }

  /** BS and CR. */
  lemma LeftForms(d: Display)
    requires d.Sized()
    ensures d.SetCursor(SizeSub(d.X(), 1), d.Y()) == d.(cx := Arithmetic.Max(d.X() - 1, 0), cy := d.Y())
    ensures d.SetCursor(0, d.Y()) == d.(cx := 0, cy := d.Y())
  {
    assert SizeSub(d.X(), 1) == (d.X() - 1) % SIZE_MODULUS && 0 % SIZE_MODULUS == 0;
    assert d.Y() % SIZE_MODULUS == d.Y();
    BackendForms.CursorSaturates(d, d.X() - 1, d.Y());
    BackendForms.CursorSaturates(d, 0, d.Y());
    hide Display.SetCursor;
  }

  lemma GroundParts(t: Term)
    requires Grounded(t)
    ensures t.Valid() && t.display.Valid() && t.display.scrollEnabled && t.parser.Valid() && |t.charsets| == 2 && t.style.charset < 2
    ensures t.parser.unicodeRemaining == 0 && !t.parser.discardNext && !t.parser.escape && t.parser.gSelect == 0
  {
  }

  lemma ControlReached(tb: Tables, t: Term, c: u8)
    requires Grounded(t) && (c == 0x00 || 0x07 <= c <= 0x0f || c == 0x7f)
    ensures t.display.Sized() && t.display.top < t.display.bottom
    ensures var r, d := PutChar(tb, t, c), t.display;
      && Grounded(r)
      && r == if c == 0x08 then t.(display := d.SetCursor(SizeSub(d.X(), 1), d.Y()))
         else if c == 0x09 then t.(display := Tab(d))
         else if c == 0x0a || c == 0x0b || c == 0x0c then t.(display := LineFeed(d, if t.onlcr then 0 else d.X()))
         else if c == 0x0d then t.(display := d.SetCursor(0, d.Y()))
         else if c == 0x0e then t.(style := t.style.(charset := 1))
         else if c == 0x0f then t.(style := t.style.(charset := 0)) else t
  {
    StepCases(tb, t, c);
    hide PutChar, Tab, LineFeed, Display.SetCursor, Display.Sized;
  }

  /** A printable character draws itself, or the line-drawing glyph if its character set is that one; in insert mode
      room is made for it. */
  lemma PrintableActs(tb: Tables, t: Term, c: u8)
    requires Grounded(t) && 0x20 <= c <= 0x7e
    ensures t.display.Sized() && t.display.top < t.display.bottom && |t.charsets| == 2 && t.style.charset < 2
    ensures var r := PutChar(tb, t, c);
      var glyph := if t.charsets[t.style.charset] == 1 && tb.special(c).Some? then tb.special(c).value else c;
      Grounded(r) && r == t.(display := (if t.insertMode then MakeRoom(t.display) else t.display).RawPutchar(glyph))
  {
    StepCases(tb, t, c);
    hide PutChar, MakeRoom, Display.RawPutchar, Display.Sized;
  }

  // ---- Two-byte sequences

  /** ESC starts a sequence from outside any. */
  lemma Escaped(tb: Tables, t: Term)
    requires Grounded(t)
    ensures t.Valid() && PutChar(tb, t, ESC) == t.(parser := t.parser.(escapeOffset := 0, escape := true))
  {
    StepCases(tb, t, ESC);
    hide PutChar, Display.Sized;
  }

  /** The bytes behind ESC that do not start a longer sequence. */
  predicate Function(c: u8) {
    c < 0x80 && c != 0x18 && c != 0x1a && c != '[' as int && c != ']' as int && c != 'c' as int
  }

  lemma FunctionReached(tb: Tables, t: Term, c: u8)
    requires Grounded(t) && Function(c)
    ensures t.Valid() && Run(tb, t, [ESC, c])
      == EscapeFunction(t.(parser := t.parser.(escapeOffset := 1)), c)
  {
    Escaped(tb, t);
    var u := PutChar(tb, t, ESC);
    StepCases(tb, u, c);
    RunNext(tb, t, [ESC], c);
    RunNext(tb, t, [], ESC);
    assert [ESC] + [c] == [ESC, c] && [] + [ESC] == [ESC];
    assert t.parser == t.parser.(escape := false);
    hide PutChar, Run, EscapeFunction, Display.Sized;
  }

  /** DECSC saves colours, attributes and cursor, DECRC restores them; IND, NEL and RI move the cursor down or up a row
      and scroll the region at its end. */
  lemma FunctionActs(tb: Tables, t: Term, c: u8, x: nat, y: nat)
    requires Grounded(t) && Function(c) && c != '(' as int && c != ')' as int
    requires x == Arithmetic.Min(t.display.cx, t.display.cols - 1) && y == Arithmetic.Min(t.display.cy, t.display.rows - 1)
    ensures t.display.Sized() && t.display.top < t.display.bottom
    ensures var r, d := Run(tb, t, [ESC, c]), t.display;
      && Grounded(r) && r == t.(parser := r.parser, display := r.display, savedStyle := r.savedStyle, style := r.style)
      && r.savedStyle == (if c as char == '7' then t.style else t.savedStyle)
      && r.style == (if c as char == '8' then t.savedStyle else t.style)
      && r.display == match c as char
        case '7' => d.(savedFg := d.fg, savedBg := d.bg, savedX := d.cx, savedY := d.cy)
        case '8' => d.(fg := d.savedFg, bg := d.savedBg, cx := d.savedX, cy := d.savedY)
        case 'D' => if y == d.bottom - 1 then d.Scroll().(cx := x, cy := y) else d.(cx := x, cy := Arithmetic.Min(y + 1, d.rows - 1))
        case 'E' => if y == d.bottom - 1 then d.Scroll().(cx := 0, cy := y) else d.(cx := 0, cy := Arithmetic.Min(y + 1, d.rows - 1))
        case 'M' => if y == d.top then d.RevScroll().(cx := 0, cy := y) else d.(cx := 0, cy := Arithmetic.Max(y - 1, 0))
        case _ => d
  {
    hide *;
    GroundParts(t);
    Sequences.DisplayIs(t.display);
    Sequences.SeenAt(t.display);
    FunctionReached(tb, t, c);
    LineFeedForm(t.display, 0);
    LineFeedForm(t.display, x);
    ReverseLineFeedForm(t.display);
    FunctionIs(t, c);
  }

  lemma FunctionIs(t: Term, c: u8)
    requires Grounded(t) && c != '(' as int && c != ')' as int
    ensures t.display.Sized() && t.display.top < t.display.bottom
    ensures t.(parser := t.parser.(escapeOffset := 1)).Valid()
    ensures var r, d := EscapeFunction(t.(parser := t.parser.(escapeOffset := 1)), c), t.display;
      && Grounded(r) && r == t.(parser := r.parser, display := r.display, savedStyle := r.savedStyle, style := r.style)
      && r.savedStyle == (if c as char == '7' then t.style else t.savedStyle)
      && r.style == (if c as char == '8' then t.savedStyle else t.style)
      && r.display == match c as char
        case '7' => d.(savedFg := d.fg, savedBg := d.bg, savedX := d.cx, savedY := d.cy)
        case '8' => d.(fg := d.savedFg, bg := d.savedBg, cx := d.savedX, cy := d.savedY)
        case 'D' => LineFeed(d, d.X())
        case 'E' => LineFeed(d, 0)
        case 'M' => ReverseLineFeed(d)
        case _ => d
  {
    hide LineFeed, ReverseLineFeed, Display.X, Display.Sized;
  }

  // ---- Character sets

  /** ESC ( and ESC ) and one more byte designate the character sets that SI and SO select: 0 is the line-drawing set and
      B is ASCII, and anything else changes nothing. */
  lemma Designates(tb: Tables, t: Term, paren: u8, c: u8)
    requires Grounded(t) && (paren == '(' as int || paren == ')' as int) && c != 0x18 && c != 0x1a && !(0xc0 <= c <= 0xf7)
    ensures |t.charsets| == 2
    ensures var r, g := Run(tb, t, [ESC, paren, c]), if paren == '(' as int then 0 else 1;
      && Grounded(r)
      && r == t.(parser := r.parser, charsets := t.charsets[g := if c == '0' as int then 1 else if c == 'B' as int then 0 else t.charsets[g]])
  {
    FunctionReached(tb, t, paren);
    var u := Run(tb, t, [ESC, paren]);
    RunNext(tb, t, [ESC, paren], c);
    assert [ESC, paren] + [c] == [ESC, paren, c];
    hide Run, Display.Sized;
    assert PutChar(tb, u, c) == Designate(u, c);
  }

  /** So with the line-drawing set behind SO, SO and a character draw its glyph there, and SI leads back. */
  lemma LineDrawing(tb: Tables, t: Term, c: u8)
    requires Grounded(t) && 0x20 <= c <= 0x7e && !t.insertMode && tb.special(c).Some?
    ensures t.display.Sized() && t.display.top < t.display.bottom
    ensures var r := Run(tb, t, [ESC, ')' as int, '0' as int] + [0x0e, c, 0x0f]);
      Grounded(r) && r.display == t.display.RawPutchar(tb.special(c).value) && r.style == t.style.(charset := 0)
  {
    hide *;
    GroundParts(t);
    Sequences.DisplayIs(t.display);
    var bytes: seq<u8> := [ESC, ')' as int, '0' as int];
    Designates(tb, t, ')' as int, '0' as int);
    var u := Run(tb, t, bytes);
    RunAppend(tb, t, bytes, [0x0e, c, 0x0f]);
    GroundParts(u);
    ThreeBytes(tb, u, 0x0e, c, 0x0f);
    Sequences.DisplayIs(u.display);
    Sequences.SeenAt(u.display);
    ControlActs(tb, u, 0x0e, u.display.X(), u.display.Y());
    var v := PutChar(tb, u, 0x0e);
    GroundParts(v);
    PrintableActs(tb, v, c);
    var w := PutChar(tb, v, c);
    GroundParts(w);
    Sequences.DisplayIs(w.display);
    Sequences.SeenAt(w.display);
    ControlActs(tb, w, 0x0f, w.display.X(), w.display.Y());
  }

  lemma ThreeBytes(tb: Tables, t: Term, a: u8, b: u8, c: u8)
    requires t.Valid()
    ensures Run(tb, t, [a, b, c]) == PutChar(tb, PutChar(tb, PutChar(tb, t, a), b), c)
  {
    RunNext(tb, t, [a, b], c);
    RunNext(tb, t, [a], b);
    RunNext(tb, t, [], a);
    assert [a, b] + [c] == [a, b, c] && [a] + [b] == [a, b] && [] + [a] == [a];
    RunNothing(tb, t);
    hide Run, PutChar;
  }

  // ---- Saving and restoring

  /** Text without escape sequences: graphic characters, UTF-8 and control characters. */
  predicate Simple(s: seq<u8>) {
    forall i :: 0 <= i < |s| ==> s[i] != 0x1b && s[i] != 0x9b
  }

  /** Between characters or inside a UTF-8 sequence, but in no escape sequence. */
  ghost predicate Quiet(t: Term) {
    t.Valid() && Grounded(t.(parser := t.parser.(unicodeRemaining := 0)))
  }

  /** What text leaves as it is: everything but cells, cursor and the choice of the character set. */
  ghost predicate SameButText(t: Term, r: Term) {
    && r == t.(parser := r.parser, display := r.display, style := r.style)
    && r.style == t.style.(charset := r.style.charset)
    && r.display == t.display.(lines := r.display.lines, cx := r.display.cx, cy := r.display.cy)
  }

  lemma QuietStep(tb: Tables, t: Term, c: u8)
    requires Quiet(t) && c != 0x1b && c != 0x9b
    ensures Quiet(PutChar(tb, t, c)) && SameButText(t, PutChar(tb, t, c))
  {
    hide *;
    QuietParts(t);
    if c == 0x18 || c == 0x1a {
      AbortQuiet(tb, t, c);
    } else if t.parser.unicodeRemaining != 0 && IsContinuation(c) {
      ContinueQuiet(tb, t, c);
    } else {
      GroundQuiet(tb, WithRemaining(t, 0), c);
      BrokenIs(tb, t, c);
    }
  }

  lemma QuietParts(t: Term)
    requires Quiet(t)
    ensures t.Valid() && !t.parser.discardNext
    ensures Quiet(WithRemaining(t, 0)) && WithRemaining(t, 0) == t.(parser := t.parser.(unicodeRemaining := 0))
    ensures Grounded(WithRemaining(t, 0))
  {
  }

  lemma AbortQuiet(tb: Tables, t: Term, c: u8)
    requires Quiet(t) && t.Valid() && (c == 0x18 || c == 0x1a)
    ensures Quiet(PutChar(tb, t, c)) && SameButText(t, PutChar(tb, t, c))
  {
    hide Display.Sized, Ground, Continue;
  }

  lemma ContinueQuiet(tb: Tables, t: Term, c: u8)
    requires Quiet(t) && t.Valid() && t.parser.unicodeRemaining != 0 && IsContinuation(c) && c != 0x18 && c != 0x1a
    ensures Quiet(PutChar(tb, t, c)) && SameButText(t, PutChar(tb, t, c))
  {
    assert PutChar(tb, t, c) == Continue(tb, t, c);
    hide PutChar, Emit, Fill, Display.Sized;
  }

  lemma BrokenIs(tb: Tables, t: Term, c: u8)
    requires Quiet(t) && t.Valid() && c != 0x18 && c != 0x1a && !(t.parser.unicodeRemaining != 0 && IsContinuation(c))
    ensures PutChar(tb, t, c) == Ground(tb, WithRemaining(t, 0), c)
    ensures forall r :: SameButText(WithRemaining(t, 0), r) ==> SameButText(t, r)
  {
    hide Display.Sized, Ground;
    assert t.parser.unicodeRemaining == 0 ==> WithRemaining(t, 0) == t;
  }

  lemma GroundQuiet(tb: Tables, t: Term, c: u8)
    requires Quiet(t) && Grounded(t) && t.Valid() && c != 0x1b && c != 0x9b && c != 0x18 && c != 0x1a
    ensures Quiet(Ground(tb, t, c)) && SameButText(t, Ground(tb, t, c))
  {
    hide *;
    GroundCases(tb, t, c);
    if 0xc0 <= c <= 0xf7 {
      LeadQuiet(t, c);
    } else if IsControl(c) {
      ControlQuiet(tb, t, c);
    } else {
      PrintQuiet(tb, t, c);
    }
  }

  lemma GroundCases(tb: Tables, t: Term, c: u8)
    requires Grounded(t) && t.Valid()
    ensures t.parser.Valid()
    ensures Ground(tb, t, c) == if 0xc0 <= c <= 0xf7 then t.(parser := Lead(t.parser, c))
      else if IsControl(c) then Control(t, c) else Print(tb, t, c)
  {
    hide Lead, Control, Print, Display.Sized;
  }

  lemma LeadQuiet(t: Term, c: u8)
    requires Grounded(t) && t.parser.Valid() && 0xc0 <= c <= 0xf7
    ensures var r := t.(parser := Lead(t.parser, c)); Quiet(r) && SameButText(t, r)
  {
    hide Display.Sized;
  }

  lemma ControlQuiet(tb: Tables, t: Term, c: u8)
    requires Grounded(t) && t.Valid() && IsControl(c) && c != 0x1b && c != 0x9b
    ensures Quiet(Control(t, c)) && SameButText(t, Control(t, c))
  {
    hide *;
    ControlShape(t, c);
    ShapeQuiet(t, Control(t, c));
  }

  lemma ControlShape(t: Term, c: u8)
    requires t.Valid() && IsControl(c) && c != 0x1b && c != 0x9b
    ensures var r := Control(t, c);
      && r == t.(display := r.display, style := r.style) && r.style == t.style.(charset := r.style.charset)
      && t.display.SameFrame(r.display)
  {
    hide *;
    ControlIs(t, c);
    SameAsItself(t.display);
  }

  lemma SameAsItself(d: Display)
    requires d.Valid()
    ensures d.SameFrame(d) && d.Sized() && d.top < d.bottom && 1 <= d.cols && 1 <= d.rows
  {
  }

  lemma ControlIs(t: Term, c: u8)
    requires t.Valid() && IsControl(c) && c != 0x1b && c != 0x9b
    ensures t.display.Valid() && t.display.Sized() && t.display.top < t.display.bottom && 1 <= t.display.cols && 1 <= t.display.rows
    ensures var d := t.display;
      Control(t, c)
      == if c == 0x09 then t.(display := Tab(d))
         else if c == 0x0a || c == 0x0b || c == 0x0c then t.(display := LineFeed(d, if t.onlcr then 0 else d.X()))
         else if c == 0x08 then t.(display := d.SetCursor(SizeSub(d.X(), 1), d.Y()))
         else if c == 0x0d then t.(display := d.SetCursor(0, d.Y()))
         else if c == 0x0e then t.(style := t.style.(charset := 1))
         else if c == 0x0f then t.(style := t.style.(charset := 0)) else t
  {
    hide Tab, LineFeed, Display.SetCursor, Display.X, Display.Y, SizeSub, Parser.Valid, Style.Valid;
  }

  lemma ShapeQuiet(t: Term, r: Term)
    requires Grounded(t) && r.Valid() && r.parser == t.parser
    requires r == t.(display := r.display, style := r.style) && r.style == t.style.(charset := r.style.charset)
    requires t.display.SameFrame(r.display)
    ensures Quiet(r) && SameButText(t, r)
  {
    hide Display.Sized;
  }

  lemma PrintQuiet(tb: Tables, t: Term, c: u8)
    requires Grounded(t) && t.Valid()
    ensures Quiet(Print(tb, t, c)) && SameButText(t, Print(tb, t, c))
  {
    hide Display.Sized, MakeRoom, DrawPrintable;
  }

  lemma {:induction false} TextKeeps(tb: Tables, t: Term, s: seq<u8>)
    requires Quiet(t) && t.Valid() && Simple(s)
    ensures Quiet(Run(tb, t, s)) && SameButText(t, Run(tb, t, s))
    decreases |s|
  {
    hide *;
    if s == [] {
      RunNothing(tb, t);
      SameText(t);
    } else {
      SimpleRest(s);
      QuietStep(tb, t, s[0]);
      var u := PutChar(tb, t, s[0]);
      RunFirst(tb, t, s[0], s[1..]);
      TextKeeps(tb, u, s[1..]);
      SameTwice(t, u, Run(tb, u, s[1..]));
    }
  }

  lemma SimpleRest(s: seq<u8>)
    requires s != [] && Simple(s)
    ensures s[0] != 0x1b && s[0] != 0x9b && Simple(s[1..]) && [s[0]] + s[1..] == s
  {
  }

  lemma SameText(t: Term)
    ensures SameButText(t, t)
  {
  }

  lemma SameTwice(t: Term, u: Term, v: Term)
    requires SameButText(t, u) && SameButText(u, v)
    ensures SameButText(t, v)
  {
  }

  lemma GroundedIsQuiet(t: Term)
    requires Grounded(t)
    ensures Quiet(t)
  {
  }

  /** An escape sequence that follows text breaks off a UTF-8 sequence and acts as from the ground state. */
  lemma EscapeAfterText(tb: Tables, t: Term, s: seq<u8>)
    requires Quiet(t) && t.Valid()
    ensures Grounded(WithRemaining(t, 0)) && Run(tb, t, [ESC] + s) == Run(tb, WithRemaining(t, 0), [ESC] + s)
  {
    hide *;
    QuietParts(t);
    EscIs();
    BrokenIs(tb, t, ESC);
    BrokenIs(tb, WithRemaining(t, 0), ESC);
    RunFirst(tb, t, ESC, s);
    RunFirst(tb, WithRemaining(t, 0), ESC, s);
    QuietParts(WithRemaining(t, 0));
  }

  lemma EscIs()
    ensures ESC != 0x18 && ESC != 0x1a && !IsContinuation(ESC)
  {
  }

  lemma FunctionBytes()
    ensures Function('7' as int) && Function('8' as int)
    ensures ('7' as int) as char == '7' && ('8' as int) as char == '8' && '7' as int != '(' as int && '7' as int != ')' as int
    ensures '8' as int != '(' as int && '8' as int != ')' as int
  {
  }

  lemma SameParts(t: Term, r: Term)
    requires SameButText(t, r)
    ensures r == t.(parser := r.parser, display := r.display, style := r.style)
    ensures r.display == t.display.(lines := r.display.lines, cx := r.display.cx, cy := r.display.cy)
  {
  }

  /** DECSC, any text, and DECRC: colours, attributes and cursor are what they were before the text. */
  lemma SavedOverText(tb: Tables, t: Term, s: seq<u8>)
    requires Grounded(t) && Simple(s)
    ensures var r, d := Run(tb, t, [ESC, '7' as int] + s + [ESC, '8' as int]), t.display;
      && Grounded(r) && r.style == t.style
      && r.display == d.(lines := Run(tb, Run(tb, t, [ESC, '7' as int]), s).display.lines,
                         savedFg := d.fg, savedBg := d.bg, savedX := d.cx, savedY := d.cy)
  {
    hide *;
    var save, restore := [ESC, '7' as int], [ESC, '8' as int];
    GroundParts(t);
    FunctionBytes();
    Sequences.SeenAt(t.display) by { Sequences.DisplayIs(t.display); }
    FunctionActs(tb, t, '7' as int, t.display.X(), t.display.Y());
    var u := Run(tb, t, save);
    GroundedIsQuiet(u);
    GroundParts(u);
    TextKeeps(tb, u, s);
    var v := Run(tb, u, s);
    SameParts(u, v);
    RunAppend(tb, t, save, s);
    RunAppend(tb, t, save + s, restore);
    assert restore == [ESC] + ['8' as int];
    EscapeAfterText(tb, v, ['8' as int]);
    QuietParts(v);
    var w := WithRemaining(v, 0);
    Sequences.DisplayIs(w.display) by { GroundParts(w); }
    Sequences.SeenAt(w.display);
    FunctionActs(tb, w, '8' as int, w.display.X(), w.display.Y());
  }

  /** SCOSC, any text, and SCORC: the cursor is where it was seen before the text, and what is on the screen stays. */
  lemma PositionOverText(tb: Tables, t: Term, s: seq<u8>, x: nat, y: nat)
    requires Grounded(t) && Simple(s)
    requires x == Arithmetic.Min(t.display.cx, t.display.cols - 1) && y == Arithmetic.Min(t.display.cy, t.display.rows - 1)
    ensures var u := Run(tb, t, Sequences.Sequence([], 's' as int) + s);
      var r := Run(tb, t, Sequences.Sequence([], 's' as int) + s + Sequences.Sequence([], 'u' as int));
      Grounded(r) && r == u.(parser := r.parser, display := u.display.(cx := x, cy := y))
  {
    hide *;
    var save, restore := Sequences.Sequence([], 's' as int), Sequences.Sequence([], 'u' as int);
    GroundParts(t);
    SaveBytes();
    Sequences.Others(tb, t, [], 's' as int, x, y);
    var u := Run(tb, t, save);
    GroundedIsQuiet(u);
    GroundParts(u);
    TextKeeps(tb, u, s);
    var v := Run(tb, u, s);
    SameParts(u, v);
    RunAppend(tb, t, save, s);
    RunAppend(tb, t, save + s, restore);
    Sequences.BytesAre([], 'u' as int);
    var rest := ['[' as int] + Printed([]) + ['u' as int];
    assert restore == [ESC] + rest;
    EscapeAfterText(tb, v, rest);
    QuietParts(v);
    var w := WithRemaining(v, 0);
    GroundParts(w);
    Sequences.DisplayIs(w.display);
    Sequences.SeenAt(w.display);
    Sequences.Others(tb, w, [], 'u' as int, w.display.X(), w.display.Y());
  }

  lemma SaveBytes()
    ensures IsFinal('s' as int) && !Sequences.Motion('s') && !Sequences.Editor('s')
    ensures IsFinal('u' as int) && !Sequences.Motion('u') && !Sequences.Editor('u')
    ensures ('s' as int) as char == 's' && ('u' as int) as char == 'u'
  {
  }

  // ---- RIS

  /** RIS leaves a blank screen, the whole screen as the region, and the parser and the attributes of a new terminal; the
      colours and what was saved stay. */
  lemma Resets(tb: Tables, t: Term)
    requires Grounded(t)
    ensures var r, d := Run(tb, t, [ESC, 'c' as int]), t.display;
      && Grounded(r)
      && r == Term(d.(lines := seq(d.rows, _ => seq(d.cols, _ => Cell(0x20, d.fg, d.bg))), top := 0, bottom := d.rows,
                      scrollEnabled := true, cursorEnabled := true, cx := 0, cy := 0),
                   FreshParser(t.parser.codePoint), Style(false, false, false, None, None, 0), t.savedStyle, [0, 1], false, 0, 0, true, true)
  {
    Escaped(tb, t);
    var u := PutChar(tb, t, ESC);
    StepCases(tb, u, 'c' as int);
    RunNext(tb, t, [ESC], 'c' as int);
    RunNext(tb, t, [], ESC);
    assert [ESC] + ['c' as int] == [ESC, 'c' as int] && [] + [ESC] == [ESC];
    RunNothing(tb, t);
    hide PutChar, Run, Reset;
    ResetIs(Advanced(u));
    assert Advanced(u) == t.(parser := t.parser.(escapeOffset := 1, escape := true));
    FreshGrounded(t.parser.codePoint, Run(tb, t, [ESC, 'c' as int]));
  }

  lemma ResetIs(t: Term)
    requires t.Valid()
    ensures var d := t.display;
      Reset(t) == Term(d.(lines := seq(d.rows, _ => seq(d.cols, _ => Cell(0x20, d.fg, d.bg))), top := 0, bottom := d.rows,
                          scrollEnabled := true, cursorEnabled := true, cx := 0, cy := 0),
                       FreshParser(t.parser.codePoint), Style(false, false, false, None, None, 0), t.savedStyle, [0, 1], false, 0, 0, true, true)
  {
    var d := t.display;
    assert seq(d.rows, _ => d.(top := 0, bottom := d.rows, cursorEnabled := true, scrollEnabled := true).BlankLine())
      == seq(d.rows, _ => seq(d.cols, _ => Cell(0x20, d.fg, d.bg)));
  }

  lemma FreshGrounded(codePoint: nat, r: Term)
    requires r.Valid() && r.parser == FreshParser(codePoint)
    ensures Grounded(r)
  {
  }

  /** A new terminal with the screen and the palette of another one. */
  function New(t: Term): Term {
    var d := t.display;
    var blank := Cell(0x20, d.palette.defaultFg, 0xffff_ffff);
    Term(Display(d.cols, d.rows, d.palette, seq(d.rows, _ => seq(d.cols, _ => blank)), 0, d.rows, true, true,
                 0, 0, d.palette.defaultFg, 0xffff_ffff, 0, 0, 0, 0),
         FreshParser(t.parser.codePoint), Style(false, false, false, None, None, 0), Style(false, false, false, Some(0), Some(0), 0),
         [0, 1], false, 0, 0, true, true)
  }

  /** So the terminal is like a new one, but for what is left of the last code point, exactly when the colours are the
      default ones and nothing was saved. */
  lemma ResetExact(tb: Tables, t: Term)
    requires Grounded(t)
    ensures Run(tb, t, [ESC, 'c' as int]) == New(t)
      <==> var d := t.display;
        && d.fg == d.palette.defaultFg && d.bg == 0xffff_ffff && t.savedStyle == Style(false, false, false, Some(0), Some(0), 0)
        && d.savedX == 0 && d.savedY == 0 && d.savedFg == 0 && d.savedBg == 0
  {
    Resets(tb, t);
    hide Run, Grounded;
    var d, r := t.display, Run(tb, t, [ESC, 'c' as int]);
    if d.fg == d.palette.defaultFg && d.bg == 0xffff_ffff {
      assert r.display.lines == New(t).display.lines;
    }
  }

  // ---- Characters in UTF-8

  /** A decoded character draws its glyph; without one it draws the box 0xfe, and a blank if it is two columns wide. */
  lemma EmitMeans(tb: Tables, t: Term, v: nat)
    requires t.Valid()
    ensures t.display.Sized() && t.display.top < t.display.bottom
    ensures var r, d := Emit(tb, t, v), t.display;
      r.display == match tb.cp437(v)
        case Some(g) => d.RawPutchar(g)
        case None =>
          if tb.width(v) == 0 then d else if tb.width(v) == 1 then d.RawPutchar(0xfe) else d.RawPutchar(0xfe).RawPutchar(0x20)
  {
    hide Display.RawPutchar, Display.Sized;
  }

  /** So does its encoding. */
  lemma CharacterActs(tb: Tables, t: Term, v: Utf8.CodePoint)
    requires Grounded(t)
    ensures t.display.Sized() && t.display.top < t.display.bottom
    ensures var r, d := Run(tb, t, Utf8.Encode(v)), t.display;
      && Grounded(r)
      && r == t.(parser := t.parser.(codePoint := v), display := match tb.cp437(v)
        case Some(g) => d.RawPutchar(g)
        case None =>
          if tb.width(v) == 0 then d else if tb.width(v) == 1 then d.RawPutchar(0xfe) else d.RawPutchar(0xfe).RawPutchar(0x20))
  {
    hide *;
    GroundParts(t);
    Utf8.Decodes(tb, t, v);
    DecodedParts(t, v);
    EmitMeans(tb, Utf8.Decoded(t, v), v);
    EmitGrounded(tb, t, Utf8.Decoded(t, v), v);
  }

  lemma DecodedParts(t: Term, v: nat)
    requires Grounded(t)
    ensures Utf8.Decoded(t, v) == t.(parser := t.parser.(codePoint := v))
  {
  }

  lemma EmitGrounded(tb: Tables, t: Term, u: Term, v: nat)
    requires Grounded(t) && u.Valid() && u == t.(parser := t.parser.(codePoint := v))
    ensures Grounded(Emit(tb, u, v)) && Emit(tb, u, v) == u.(display := Emit(tb, u, v).display)
  {
    hide Emit, Display.Sized;
  }

  /** ESC [ [ takes one more byte with it, whatever it is, and does nothing. */
  lemma BracketDiscards(tb: Tables, t: Term, c: u8)
    requires Grounded(t)
    ensures var r := Run(tb, t, [ESC, '[' as int, '[' as int, c]); Grounded(r) && r == t.(parser := r.parser)
  {
    hide *;
    GroundParts(t);
    GroundedIs(t);
    var bytes: seq<u8> := [ESC, '[' as int];
    OpenedByEscape(tb, t);
    var u := Open(t);
    OpenParts(t);
    var v := PutChar(tb, u, '[' as int);
    SecondBracket(tb, t, u);
    Cancelled(tb, v, c);
    RunNext(tb, t, bytes, '[' as int);
    RunNext(tb, t, bytes + ['[' as int], c);
    assert bytes + ['[' as int] + [c] == [ESC, '[' as int, '[' as int, c];
  }

  lemma OpenParts(t: Term)
    requires Grounded(t)
    ensures Open(t).Valid()
  {
    hide Display.Sized;
  }

  lemma SecondBracket(tb: Tables, t: Term, u: Term)
    requires Grounded(t) && u == Open(t) && u.Valid()
    ensures var v := PutChar(tb, u, '[' as int);
      v == t.(parser := v.parser) && v.parser.discardNext && !v.parser.decPrivate
  {
    StepCases(tb, u, '[' as int);
    hide PutChar, Display.Sized;
  }
}
