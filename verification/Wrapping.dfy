/**
 When text keeps the cursor on the screen: a wrap in the last row below the region goes one row too far.
 */
module Wrapping {
  import opened Words
  import opened DisplayModel
  import opened Editing
  import opened EditingForms
  import opened TerminalModel
  import opened Steps
  import opened Parameters
  import Arithmetic

  // ---- One glyph

  /** The region ends with the screen, or the clamp of the row with the number of columns brings the cursor back. */
  predicate WrapsInside(cols: nat, rows: nat, bottom: nat) {
    bottom == rows || rows >= cols
  }

  lemma GlyphKeepsRow(d: Display, c: u8)
    requires d.Sized() && d.top < d.bottom && d.cy < d.rows && WrapsInside(d.cols, d.rows, d.bottom)
    ensures d.RawPutchar(c).cy < d.rows
  {
  }

  /** A full last row, one glyph too many. */
  lemma GlyphLeaves(d: Display, c: u8)
    requires d.Sized() && d.top < d.bottom && d.scrollEnabled && d.cx >= d.cols && d.cy == d.rows - 1
    requires !WrapsInside(d.cols, d.rows, d.bottom)
    ensures d.RawPutchar(c).cy == d.rows && d.RawPutchar(c).lines == d.lines
  {
  }

  /** A line and one glyph more lead there from the start of the last row. */
  lemma LineLeaves(d: Display, c: u8)
    requires d.Sized() && d.top < d.bottom && d.scrollEnabled && d.cx == 0 && d.cy == d.rows - 1
    requires !WrapsInside(d.cols, d.rows, d.bottom)
    ensures RawPuts(d, c, d.cols + 1).cy == d.rows
  {
    RawPutsAdd(d, c, d.cols, 1);
    RawPutsInLine(d, c, d.cols);
    var e := RawPuts(d, c, d.cols);
    RawPutsIs(e, c, 1);
    RawPutsIs(e.RawPutchar(c), c, 0);
    GlyphLeaves(e, c);
    hide RawPuts, Display.RawPutchar;
  }

  /** Below the screen glyphs are lost, however many follow. */
  lemma {:induction false} TextLost(d: Display, c: u8, n: nat)
    requires d.Sized() && d.top < d.bottom && d.rows <= d.cy && d.rows < d.cols
    ensures RawPuts(d, c, n).lines == d.lines && RawPuts(d, c, n).cy >= d.rows
    decreases n
  {
    if n > 0 {
      GlyphLost(d, c);
      TextLost(d.RawPutchar(c), c, n - 1);
    }
    hide Display.RawPutchar;
  }

  lemma GlyphLost(d: Display, c: u8)
    requires d.Sized() && d.top < d.bottom && d.rows <= d.cy && d.rows < d.cols
    ensures d.RawPutchar(c).lines == d.lines && d.RawPutchar(c).cy >= d.rows
  {
  }

  // ---- Printable bytes

  predicate Printable(s: seq<u8>) {
    forall i :: 0 <= i < |s| ==> 0x20 <= s[i] <= 0x7e
  }

  lemma PrintByte(tb: Tables, t: Term, c: u8)
    requires Outside(t) && 0x20 <= c <= 0x7e
    ensures PutChar(tb, t, c) == Print(tb, t, c) && Outside(Print(tb, t, c)) && t.display.SameFrame(Print(tb, t, c).display)
  {
    StepCases(tb, t, c);
    hide PutChar, Display.Sized;
  }

  lemma PrintKeepsRow(tb: Tables, t: Term, c: u8)
    requires t.Valid() && t.display.cy < t.display.rows && WrapsInside(t.display.cols, t.display.rows, t.display.bottom)
    ensures Print(tb, t, c).display.cy < t.display.rows
  {
    var d := if t.insertMode then MakeRoom(t.display) else t.display;
    var special := if t.charsets[t.style.charset] == CHARSET_DEC_SPECIAL then tb.special(c) else None;
    GlyphKeepsRow(d, if special.Some? then special.value else c);
    hide Display.RawPutchar, MakeRoom, WrapsInside;
  }

  lemma {:induction false} TextKeepsRow(tb: Tables, t: Term, s: seq<u8>)
    requires Outside(t) && t.Valid() && Printable(s)
    requires t.display.cy < t.display.rows && WrapsInside(t.display.cols, t.display.rows, t.display.bottom)
    ensures Run(tb, t, s).display.cy < t.display.rows
    decreases |s|
  {
    if s != [] {
      PrintByte(tb, t, s[0]);
      PrintKeepsRow(tb, t, s[0]);
      hide PutChar, Print, WrapsInside, Outside, Term.Valid, Display.Sized;
      TextKeepsRow(tb, PutChar(tb, t, s[0]), s[1..]);
    }
  }

  /** Text keeps the cursor on the screen. */
  ghost predicate TextStays(tb: Tables, cols: nat, rows: nat, top: nat, bottom: nat) {
    forall t: Term, s: seq<u8> ::
      Outside(t) && t.display.cols == cols && t.display.rows == rows && t.display.top == top && t.display.bottom == bottom
      && t.display.cy < rows && Printable(s) ==>
      Run(tb, t, s).display.cy < rows
  }

  /** A full last row, with the cursor behind it. */
  function FullLastRow(cols: nat, rows: nat, top: nat, bottom: nat): Term
    requires rows >= 1
  {
    Term(Full(cols, rows, top, bottom, cols, rows - 1).(scrollEnabled := true), FreshParser(0), PLAIN, PLAIN,
         [CHARSET_DEFAULT, CHARSET_DEC_SPECIAL], false, 0, 0, true, true)
  }

  lemma FullLastRowLeaves(tb: Tables, cols: nat, rows: nat, top: nat, bottom: nat)
    requires 1 <= cols < 0x8000_0000 && 1 <= rows < 0x8000_0000 && top < bottom <= rows && !WrapsInside(cols, rows, bottom)
    ensures var t := FullLastRow(cols, rows, top, bottom);
      && Outside(t) && t.display.cy < rows && Printable(['A' as int]) && Run(tb, t, ['A' as int]).display.cy == rows
  {
    var t := FullLastRow(cols, rows, top, bottom);
    var c: u8 := 'A' as int;
    assert Outside(t);
    PrintByte(tb, t, c);
    GlyphLeaves(t.display, c);
    RunFirst(tb, t, c, []);
    RunNothing(tb, PutChar(tb, t, c));
    assert [c] + [] == [c];
    assert Print(tb, t, c).display == t.display.RawPutchar(c);
    hide Run, PutChar, Display.RawPutchar, Outside;
  }

  /** Exactly when the region ends with the screen or there are at least as many rows as columns. */
  lemma TextStaysExact(tb: Tables, cols: nat, rows: nat, top: nat, bottom: nat)
    requires 1 <= cols < 0x8000_0000 && 1 <= rows < 0x8000_0000 && top < bottom <= rows
    ensures TextStays(tb, cols, rows, top, bottom) <==> bottom == rows || rows >= cols
  {
    if WrapsInside(cols, rows, bottom) {
      forall t: Term, s: seq<u8> |
        Outside(t) && t.display.cols == cols && t.display.rows == rows && t.display.top == top && t.display.bottom == bottom
        && t.display.cy < rows && Printable(s)
        ensures Run(tb, t, s).display.cy < rows
      {
        TextKeepsRow(tb, t, s);
      }
    } else {
      FullLastRowLeaves(tb, cols, rows, top, bottom);
    }
    hide Run, Printable;
  }
}
