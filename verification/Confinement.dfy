/**
 Scroll-region confinement over whole runs: while the cursor is in the region, text,
 line feeds and relative cursor movement change no line outside it and never leave it, exactly when the
 region starts above row `cols`.
 */
module Confinement {
  import opened Words
  import opened DisplayModel
  import opened Editing
  import opened TerminalModel
  import opened Steps

  /** The cursor is in the region, and the parser is in the ground state, after ESC, or in the
      parameters of an ordinary control sequence. */
  ghost predicate InRegion(t: Term)
    requires t.Valid()
  {
    var d, p := t.display, t.parser;
    && d.top <= d.cy < d.bottom
    && p.unicodeRemaining == 0 && p.gSelect == 0
    && !p.discardNext && !p.osc && !p.csi && !p.decPrivate
  }

  /** Printable bytes, BS, HT, LF, VT, FF, CR, and ESC D, E, M and CSI A to F with any parameters. */
  predicate Allowed(p: Parser, c: u8) {
    if !p.escape then 0x20 <= c <= 0x7e || 0x08 <= c <= 0x0d || c == 0x1b
    else if p.controlSequence then '0' as int <= c <= '9' as int || c == ';' as int || 'A' as int <= c <= 'F' as int
    else c == 'D' as int || c == 'E' as int || c == 'M' as int || c == '[' as int
  }

  predicate AllowedRun(tb: Tables, t: Term, bytes: seq<u8>)
    requires t.Valid()
    decreases |bytes|
  {
    bytes == [] || (Allowed(t.parser, bytes[0]) && AllowedRun(tb, PutChar(tb, t, bytes[0]), bytes[1..]))
  }

  /** Same region, the cursor row still in it, and the lines outside untouched. */
  ghost predicate Confined(d: Display, d': Display)
    requires d.Sized() && d'.Sized()
  {
    && d'.cols == d.cols && d'.rows == d.rows && d'.top == d.top && d'.bottom == d.bottom
    && d.top <= d'.cy < d.bottom
    && forall y :: 0 <= y < d.rows && !(d.top <= y < d.bottom) ==> d'.lines[y] == d.lines[y]
  }

  lemma ScrollConfined(d: Display)
    requires d.Sized() && d.top < d.bottom && d.top <= d.cy < d.bottom
    ensures Confined(d, d.Scroll()) && Confined(d, d.RevScroll())
  {
  }

  lemma RawPutcharConfined(d: Display, c: u8)
    requires d.Valid() && d.top < d.cols && d.top <= d.cy < d.bottom
    ensures Confined(d, d.RawPutchar(c))
  {
    ScrollConfined(d.(cx := 0));
    hide Display.Scroll;
  }

  lemma MovesConfined(d: Display, c: u8, v0: u32, v1: u32)
    requires d.Valid() && d.top <= d.cy < d.bottom && 'A' as int <= c <= 'F' as int
    ensures Confined(d, MoveCursor(d, v0, v1, c))
  {
    hide AsInt32;
  }

  lemma FeedsConfined(d: Display, x: nat)
    requires d.Valid() && d.top <= d.cy < d.bottom
    ensures Confined(d, LineFeed(d, x)) && Confined(d, ReverseLineFeed(d))
  {
    LineFeedConfined(d, x);
    ReverseLineFeedConfined(d);
    hide *;
  }

  lemma LineFeedConfined(d: Display, x: nat)
    requires d.Valid() && d.top <= d.cy < d.bottom
    ensures Confined(d, LineFeed(d, x))
  {
    ScrollConfined(d);
    hide Display.Scroll, Display.RevScroll, AsInt32, SizeSub;
  }

  lemma ReverseLineFeedConfined(d: Display)
    requires d.Valid() && d.top <= d.cy < d.bottom
    ensures Confined(d, ReverseLineFeed(d))
  {
    ScrollConfined(d);
    hide Display.Scroll, Display.RevScroll, AsInt32;
  }

  lemma PrintConfined(tb: Tables, t: Term, c: u8)
    requires t.Valid() && t.display.top < t.display.cols && t.display.top <= t.display.cy < t.display.bottom
    ensures Confined(t.display, Print(tb, t, c).display)
  {
    var d := if t.insertMode then MakeRoom(t.display) else t.display;
    assert Confined(t.display, d);
    if t.charsets[t.style.charset] == CHARSET_DEC_SPECIAL && tb.special(c).Some? {
      RawPutcharConfined(d, tb.special(c).value);
    } else {
      RawPutcharConfined(d, c);
    }
    hide Display.RawPutchar, MakeRoom;
  }

  lemma ControlSequenceConfined(tb: Tables, t: Term, c: u8)
    requires t.Valid() && InRegion(t) && t.parser.controlSequence && t.parser.escape && Allowed(t.parser, c)
    ensures var r := ControlSequence(tb, t, c); InRegion(r) && Confined(t.display, r.display)
  {
    var p := t.parser;
    if 'A' as int <= c <= 'F' as int {
      var q, d := Finish(p, c), t.display.(scrollEnabled := false);
      MovesConfined(d, c, q.values[0], q.values[1]);
      FinalMove(tb, t.(parser := q), c);
    } else {
      assert Confined(t.display, t.display);
    }
    hide FinalByte, Finish, Digit, Separator, Display.Sized, MoveCursor;
  }

  lemma FinalMove(tb: Tables, t: Term, c: u8)
    requires t.Valid() && !t.parser.decPrivate && 'A' as int <= c <= 'F' as int
    ensures var d := t.display.(scrollEnabled := false);
      FinalByte(tb, t, c) ==
      t.(display := MoveCursor(d, t.parser.values[0], t.parser.values[1], c).(scrollEnabled := t.display.scrollEnabled))
  {
    hide MoveCursor, Edit, Sgr, Parser.Valid, Display.Sized;
  }

  lemma ControlConfined(t: Term, c: u8)
    requires t.Valid() && InRegion(t) && (0x08 <= c <= 0x0d || c == 0x1b)
    ensures Confined(t.display, Control(t, c).display)
  {
    var d := t.display;
    FeedsConfined(d, if t.onlcr then 0 else d.X());
    assert d.Y() == d.cy;
    assert Confined(d, d) && Confined(d, Tab(d));
    SetColumnConfined(d, SizeSub(d.X(), 1));
    SetColumnConfined(d, 0);
    hide LineFeed, Tab, Display.SetCursor, AsInt32, SizeSub, Parser.Valid, Display.Sized, Confined, Display.Y;
  }

  lemma ControlGround(t: Term, c: u8)
    requires t.Valid() && InRegion(t) && (0x08 <= c <= 0x0d || c == 0x1b)
    requires Confined(t.display, Control(t, c).display)
    ensures InRegion(Control(t, c))
  {
    hide LineFeed, Tab, Display.SetCursor, AsInt32, SizeSub, Parser.Valid, Display.Sized, Display.Y;
  }

  lemma SetColumnConfined(d: Display, x: nat)
    requires d.Valid() && d.top <= d.cy < d.bottom
    ensures Confined(d, d.SetCursor(x, d.cy))
  {
  }

  lemma EscapeConfined(t: Term, c: u8)
    requires t.Valid() && InRegion(t) && (c == 'D' as int || c == 'E' as int || c == 'M' as int || c == '[' as int)
    ensures var r := EscapeStart(t, c); InRegion(r) && Confined(t.display, r.display)
  {
    FeedsConfined(t.display, 0);
    FeedsConfined(t.display, t.display.X());
    hide LineFeed, ReverseLineFeed;
  }

  /** One allowed byte. */
  lemma ConfinedStep(tb: Tables, t: Term, c: u8)
    requires t.Valid() && InRegion(t) && Allowed(t.parser, c) && t.display.top < t.display.cols
    ensures var r := PutChar(tb, t, c); InRegion(r) && Confined(t.display, r.display)
  {
    StepCases(tb, t, c);
    hide Parser.Valid, Display.Sized, Confined, PutChar, ControlSequence, EscapeStart, Control, Print;
    if t.parser.escape {
      if t.parser.controlSequence {
        ControlSequenceConfined(tb, Advanced(t), c);
      } else {
        EscapeConfined(Advanced(t), c);
      }
    } else if IsControl(c) {
      ControlConfined(t, c);
      ControlGround(t, c);
    } else {
      PrintConfined(tb, t, c);
    }
  }

  /** Any allowed run stays in a region that starts above row `cols`. */
  lemma {:induction false} ConfinedRun(tb: Tables, t: Term, bytes: seq<u8>)
    requires t.Valid() && InRegion(t) && AllowedRun(tb, t, bytes) && t.display.top < t.display.cols
    ensures Confined(t.display, Run(tb, t, bytes).display)
    decreases |bytes|
  {
    if bytes != [] {
      ConfinedStep(tb, t, bytes[0]);
      hide PutChar;
      ConfinedRun(tb, PutChar(tb, t, bytes[0]), bytes[1..]);
    }
  }

  /** A valid terminal with a given screen, region and cursor. */
  ghost predicate Placed(t: Term, cols: nat, rows: nat, top: nat, bottom: nat) {
    && t.Valid() && InRegion(t)
    && t.display.cols == cols && t.display.rows == rows && t.display.top == top && t.display.bottom == bottom
  }

  ghost predicate AlwaysConfined(tb: Tables, cols: nat, rows: nat, top: nat, bottom: nat) {
    forall t: Term, bytes: seq<u8> :: Placed(t, cols, rows, top, bottom) && AllowedRun(tb, t, bytes) ==>
      Confined(t.display, Run(tb, t, bytes).display)
  }

  /** A terminal in the ground state, with a full line in the region. */
  function FullLine(cols: nat, rows: nat, top: nat, bottom: nat): Term {
    var colours := seq(8, _ => 0);
    var line := seq(cols, _ => Cell(SPACE, 0, 0));
    var d := Display(cols, rows, Palette(colours, colours, 0, 0, 0), seq(rows, _ => line), top, bottom, true, true,
                     cols, top, 0, 0, 0, 0, 0, 0);
    Term(d, FreshParser(0), PLAIN, PLAIN, [CHARSET_DEFAULT, CHARSET_DEC_SPECIAL], false, 0, 0, true, true)
  }

  lemma FullLineLeaves(tb: Tables, cols: nat, rows: nat, top: nat, bottom: nat)
    requires 1 <= cols < 0x8000_0000 && 1 <= rows < 0x8000_0000 && top < bottom <= rows && cols <= top
    ensures var t := FullLine(cols, rows, top, bottom);
      && Placed(t, cols, rows, top, bottom) && AllowedRun(tb, t, ['A' as int])
      && Run(tb, t, ['A' as int]).display.cy == cols - 1
  {
    var t := FullLine(cols, rows, top, bottom);
    assert t.Valid() && InRegion(t);
    var bytes: seq<u8> := ['A' as int];
    assert Allowed(t.parser, bytes[0]) && bytes[1..] == [];
    assert PutChar(tb, t, bytes[0]) == Print(tb, t, bytes[0]);
    assert AllowedRun(tb, PutChar(tb, t, bytes[0]), []);
  }

  /** Confinement holds for every run, exactly when the region starts above row `cols`: the clamp of the
      cursor row after a wrap compares it with the number of columns. */
  lemma ConfinementExact(tb: Tables, cols: nat, rows: nat, top: nat, bottom: nat)
    requires 1 <= cols < 0x8000_0000 && 1 <= rows < 0x8000_0000 && top < bottom <= rows
    ensures AlwaysConfined(tb, cols, rows, top, bottom) <==> top < cols
  {
    if top < cols {
      forall t: Term, bytes: seq<u8> | Placed(t, cols, rows, top, bottom) && AllowedRun(tb, t, bytes)
        ensures Confined(t.display, Run(tb, t, bytes).display)
      {
        ConfinedRun(tb, t, bytes);
      }
    } else {
      FullLineLeaves(tb, cols, rows, top, bottom);
      var t := FullLine(cols, rows, top, bottom);
      assert !Confined(t.display, Run(tb, t, ['A' as int]).display);
    }
  }
}
