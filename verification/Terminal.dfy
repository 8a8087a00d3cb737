/**
 The control-sequence machine (`src/flanterm/flanterm.c`) as a function of states and bytes.

 `PutChar` is one step. It follows the source branch by branch; `TerminalDriver` is the same machine
 updating its fields in place.
 */
module TerminalModel {
  import opened Words
  import opened DisplayModel
  import opened Editing
  import Bits

  const MAX_VALUES: nat := 16

  const CHARSET_DEFAULT: nat := 0
  const CHARSET_DEC_SPECIAL: nat := 1

  type Width = n: int | 0 <= n <= 2

  /** The constant tables of the source: code page 437, character widths, the 256-colour cube and the
      DEC line-drawing set. */
  datatype Tables = Tables(cp437: nat -> Option<u8>, width: nat -> Width, col256: nat -> u32, special: u8 -> Option<u8>)

  datatype Parser = Parser(
    escape: bool, csi: bool, controlSequence: bool, osc: bool, oscEscape: bool,
    rrr: bool, discardNext: bool, decPrivate: bool,
    escapeOffset: nat, values: seq<u32>, count: nat,
    codePoint: nat, unicodeRemaining: nat, gSelect: nat)
  {
    ghost predicate Valid() {
      && |values| == MAX_VALUES && count <= MAX_VALUES && (rrr ==> count < MAX_VALUES)
      && unicodeRemaining <= 3 && gSelect <= 2
      && (!controlSequence ==> values == Zeros())
    }
  }

  /** Bitwise or of six-bit numbers. */
  function Or6(a: nat, b: nat): nat
    requires a < 0x40 && b < 0x40
  {
    ((a as bv6) | (b as bv6)) as nat
  }

  /** `codePoint | bits << (6 * n)`: only the `n`th six-bit digit can change. */
  function Fill(codePoint: nat, bits: nat, n: nat): nat
    requires bits < 0x40 && n < 3
  {
    if n == 0 then codePoint / 0x40 * 0x40 + Or6(codePoint % 0x40, bits)
    else if n == 1 then
      (codePoint / 0x1000 * 0x40 + Or6(codePoint / 0x40 % 0x40, bits)) * 0x40 + codePoint % 0x40
    else (codePoint / 0x4_0000 * 0x40 + Or6(codePoint / 0x1000 % 0x40, bits)) * 0x1000 + codePoint % 0x1000
  }

  function Zeros(): seq<u32> {
    seq(MAX_VALUES, _ => 0)
  }

  /** The text attributes. A colour index of `(size_t)-1` is `None`. */
  datatype Style = Style(
    bold: bool, bgBold: bool, reverseVideo: bool,
    primary: Option<nat>, background: Option<nat>, charset: nat)
  {
    ghost predicate Valid() {
      && (primary.Some? ==> primary.value < 8) && (background.Some? ==> background.value < 8)
      && charset < 2
    }
  }

  const PLAIN: Style := Style(false, false, false, None, None, 0)

  datatype Term = Term(
    display: Display, parser: Parser, style: Style, savedStyle: Style,
    charsets: seq<nat>, insertMode: bool, savedX: nat, savedY: nat, onlcr: bool, autoflush: bool)
  {
    /** The invariant of everything but the parser. */
    ghost predicate Settled() {
      && display.Valid() && style.Valid() && savedStyle.Valid()
      && |charsets| == 2 && charsets[0] < 2 && charsets[1] < 2
      && savedX < display.cols && savedY < display.rows
    }

    /** The machine invariant at every byte boundary. */
    ghost predicate Valid() {
      Settled() && parser.Valid() && display.scrollEnabled
    }
  }

  // ---- SGR

  /** The colours and attributes that `sgr` changes. */
  datatype Colours = Colours(fg: u32, bg: u32, style: Style)

  /** One parameter of SGR other than 38 and 48. */
  function Attribute(p: Palette, c: Colours, v: u32): (r: Colours)
    requires p.Valid() && c.style.Valid()
    ensures r.style.Valid()
  {
    var s := c.style;
    if v == 0 then
      Colours(p.defaultFg, TRANSPARENT, s.(reverseVideo := false, bold := false, bgBold := false, primary := None, background := None))
    else if v == 1 then
      SetPrimary(c.(style := s.(bold := true)), if s.primary.Some? then p.bright[s.primary.value]
        else if s.reverseVideo then p.defaultBgBright else p.defaultFgBright)
    else if v == 5 then
      SetBackground(c.(style := s.(bgBold := true)), if s.background.Some? then p.bright[s.background.value]
        else if s.reverseVideo then p.defaultFgBright else p.defaultBgBright)
    else if v == 22 then
      SetPrimary(c.(style := s.(bold := false)), if s.primary.Some? then p.ansi[s.primary.value]
        else if s.reverseVideo then TRANSPARENT else p.defaultFg)
    else if v == 25 then
      SetBackground(c.(style := s.(bgBold := false)), if s.background.Some? then p.ansi[s.background.value]
        else if s.reverseVideo then p.defaultFg else TRANSPARENT)
    else if 30 <= v <= 37 then
      SetPrimary(c.(style := s.(primary := Some(v - 30))), if s.bold then p.bright[v - 30] else p.ansi[v - 30])
    else if 40 <= v <= 47 then
      SetBackground(c.(style := s.(background := Some(v - 40))), if s.bgBold then p.bright[v - 40] else p.ansi[v - 40])
    else if 90 <= v <= 97 then
      SetPrimary(c.(style := s.(primary := Some(v - 90))), p.bright[v - 90])
    else if 100 <= v <= 107 then
      SetBackground(c.(style := s.(background := Some(v - 100))), p.bright[v - 100])
    else if v == 39 then
      SetPrimary(c.(style := s.(primary := None)), if s.bold then p.defaultFgBright else p.defaultFg)
    else if v == 49 then
      SetBackground(c.(style := s.(background := None)), if s.bgBold then p.defaultBgBright else TRANSPARENT)
    else if v == 7 then
      if s.reverseVideo then c else Colours(c.bg, c.fg, s.(reverseVideo := true))
    else if v == 27 then
      if s.reverseVideo then Colours(c.bg, c.fg, s.(reverseVideo := false)) else c
    else c
  }

  /** Under reverse video the primary colour is drawn as the background, and the other way round. */
  function SetPrimary(c: Colours, colour: u32): Colours {
    if c.style.reverseVideo then c.(bg := colour) else c.(fg := colour)
  }

  function SetBackground(c: Colours, colour: u32): Colours {
    if c.style.reverseVideo then c.(fg := colour) else c.(bg := colour)
  }

  /** `r << 16 | g << 8 | b`, on 32-bit words. */
  function Rgb(r: u32, g: u32, b: u32): u32 {
    Bits.Or(Bits.Or(r * 0x1_0000, g * 0x100), b) % WORD_MODULUS
  }

  /** An indexed colour of SGR 38;5 or 48;5. Numbers past the table of the source are its caller's. */
  function Indexed(tb: Tables, p: Palette, col: u32): u32
    requires p.Valid()
  {
    if col < 8 then p.ansi[col] else if col < 16 then p.bright[col - 8] else tb.col256(col - 16)
  }

  function SetDirect(c: Colours, fg: bool, colour: u32): Colours {
    if fg then c.(fg := colour) else c.(bg := colour)
  }

  /** The parameters of SGR from the `i`th on. */
  function SgrFrom(tb: Tables, p: Palette, c: Colours, values: seq<u32>, count: nat, i: nat): (r: Colours)
    requires p.Valid() && c.style.Valid() && count <= |values|
    ensures r.style.Valid()
    decreases count - i
  {
    if i >= count then c
    else if values[i] == 38 || values[i] == 48 then
      var fg := values[i] == 38;
      if i + 1 >= count then c
      else if values[i + 1] == 2 then
        if i + 4 >= count then c
        else SgrFrom(tb, p, SetDirect(c, fg, Rgb(values[i + 2], values[i + 3], values[i + 4])), values, count, i + 5)
      else if values[i + 1] == 5 then
        if i + 2 >= count then c
        else SgrFrom(tb, p, SetDirect(c, fg, Indexed(tb, p, values[i + 2])), values, count, i + 3)
      else SgrFrom(tb, p, c, values, count, i + 2)
    else SgrFrom(tb, p, Attribute(p, c, values[i]), values, count, i + 1)
  }

  function Sgr(tb: Tables, p: Palette, c: Colours, values: seq<u32>, count: nat): (r: Colours)
    requires p.Valid() && c.style.Valid() && count <= |values|
    ensures r.style.Valid()
  {
    if count == 0 then Attribute(p, c, 0) else SgrFrom(tb, p, c, values, count, 0)
  }

  // ---- Control sequences

  /** The state once a sequence is over. */
  function Close(t: Term): (r: Term)
    requires t.Valid()
    ensures r.Valid() && r == t.(parser := r.parser)
  {
    t.(parser := Closed(t.parser))
  }

  function Closed(p: Parser): (r: Parser)
    requires p.Valid()
    ensures r.Valid()
  {
    p.(controlSequence := false, escape := false, values := Zeros())
  }

  function Digit(p: Parser, c: u8): (r: Parser)
    requires p.Valid() && p.controlSequence && p.count < MAX_VALUES && '0' as int <= c <= '9' as int
    ensures r.Valid()
  {
    var v := p.values[p.count] * 10 % WORD_MODULUS;
    p.(rrr := true, values := p.values[p.count := (v + (c - '0' as int)) % WORD_MODULUS])
  }

  function Separator(p: Parser): (r: Parser)
    requires p.Valid() && p.controlSequence
    ensures r.Valid()
  {
    if p.rrr then p.(rrr := false, count := p.count + 1)
    else if p.count >= MAX_VALUES then p
    else p.(values := p.values[p.count := 0], count := p.count + 1)
  }

  /** The parameters that the final byte `c` acts on: a pending number is ended, missing ones default. */
  function Finish(p: Parser, c: u8): (r: Parser)
    requires p.Valid() && p.controlSequence
    ensures r.Valid() && r == p.(rrr := false, count := r.count, values := r.values)
  {
    var count := if p.rrr then p.count + 1 else p.count;
    p.(rrr := false, count := count,
       values := p.values[..count] + seq(MAX_VALUES - count, _ => Default(c)))
  }

  /** The value of a parameter that was not given. */
  function Default(c: u8): u32 {
    if c == 'J' as int || c == 'K' as int || c == 'q' as int then 0 else 1
  }

  /** DECSET and DECRST: only the cursor mode is known. */
  function DecPrivate(t: Term, c: u8): (r: Term)
    requires t.Valid()
    ensures r.Valid() && t.display.Kept(r.display)
  {
    t.(parser := t.parser.(decPrivate := false),
       display := t.display.(cursorEnabled := CursorMode(t.parser, t.display.cursorEnabled, c)))
  }

  function CursorMode(p: Parser, enabled: bool, c: u8): bool
    requires p.Valid()
  {
    if p.count != 0 && (c == 'h' as int || c == 'l' as int) && p.values[0] == 25 then c == 'h' as int else enabled
  }

  predicate MovesCursor(c: u8) {
    c in {'A' as int, 'B' as int, 'C' as int, 'D' as int, 'E' as int, 'F' as int, 'G' as int, 'H' as int,
          'a' as int, 'd' as int, 'e' as int, 'f' as int, '`' as int}
  }

  /** The final bytes that only move the cursor. */
  function MoveCursor(d: Display, v0: u32, v1: u32, c: u8): (r: Display)
    requires d.Valid()
    ensures d.SameFrame(r)
    ensures r == d.(cx := r.cx, cy := r.cy)
  {
    if c == 'F' as int then CursorUp(d, v0, 0)
    else if c == 'A' as int then CursorUp(d, v0, d.X())
    else if c == 'E' as int then CursorDown(d, v0, 0)
    else if c == 'e' as int || c == 'B' as int then CursorDown(d, v0, d.X())
    else if c == 'a' as int || c == 'C' as int then CursorForward(d, v0)
    else if c == 'D' as int then CursorBack(d, v0)
    else if c == 'd' as int then d.SetCursor(d.X(), OneBased(v0, d.rows))
    else if c == 'G' as int || c == '`' as int then d.SetCursor(OneBased(v0, d.cols), d.Y())
    else if c == 'H' as int || c == 'f' as int then d.SetCursor(Position(v1, d.cols), Position(v0, d.rows))
    else d
  }

  /** The final bytes that edit the screen or set the region. */
  function Edit(d: Display, v0: u32, v1: u32, count: nat, c: u8): (r: Display)
    requires d.Valid()
    ensures d.Kept(r)
  {
    if c == 'M' as int then DeleteLines(d, v0)
    else if c == 'L' as int then InsertLines(d, v0)
    else if c == 'J' as int then EraseDisplay(d, v0)
    else if c == '@' as int then InsertCharacters(d, v0)
    else if c == 'P' as int then DeleteCharacters(d, v0)
    else if c == 'X' as int then EraseCharacters(d, v0)
    else if c == 'K' as int then EraseLine(d, v0)
    else if c == 'r' as int then SetMargins(d, count, v0, v1)
    else d
  }

  function EditOrMove(d: Display, v0: u32, v1: u32, count: nat, c: u8): (r: Display)
    requires d.Valid()
    ensures d.Kept(r)
  {
    if MovesCursor(c) then MoveCursor(d, v0, v1, c) else Edit(d, v0, v1, count, c)
  }

  function SelectGraphics(tb: Tables, t: Term): (r: Term)
    requires t.Settled() && t.parser.count <= |t.parser.values|
    ensures r.Settled() && t.display.Kept(r.display) && r == t.(display := r.display, style := r.style)
  {
    var d := t.display;
    var r := Sgr(tb, d.palette, Colours(d.fg, d.bg, t.style), t.parser.values, t.parser.count);
    t.(display := d.(fg := r.fg, bg := r.bg), style := r.style)
  }

  /** The action of a final byte. The display has scrolling disabled. */
  function Dispatch(tb: Tables, t: Term, c: u8): (r: Term)
    requires t.Settled() && |t.parser.values| == MAX_VALUES && t.parser.count <= MAX_VALUES
    ensures r.Settled() && t.display.Kept(r.display)
    ensures r == t.(display := r.display, style := r.style, insertMode := r.insertMode, savedX := r.savedX, savedY := r.savedY)
  {
    var d, p := t.display, t.parser;
    if c == 'm' as int then SelectGraphics(tb, t)
    else if c == 's' as int then t.(savedX := d.X(), savedY := d.Y())
    else if c == 'u' as int then t.(display := d.SetCursor(t.savedX, t.savedY))
    else if c == 'l' as int || c == 'h' as int then
      if p.count != 0 && p.values[0] == 4 then t.(insertMode := c == 'h' as int) else t
    else t.(display := EditOrMove(d, p.values[0], p.values[1], p.count, c))
  }

  /** The final byte of a sequence, with its parameters complete. */
  function FinalByte(tb: Tables, t: Term, c: u8): (r: Term)
    requires t.Valid()
    ensures r.Valid() && t.display.Kept(r.display)
  {
    if t.parser.decPrivate then DecPrivate(t, c)
    else
      var r := Dispatch(tb, t.(display := t.display.(scrollEnabled := false)), c);
      r.(display := r.display.(scrollEnabled := t.display.scrollEnabled))
  }

  /** The byte ends the sequence and selects its action. */
  predicate IsFinalByte(p: Parser, c: u8) {
    && !(p.escapeOffset == 2 && (c == '[' as int || c == '?' as int))
    && !('0' as int <= c <= '9' as int) && c != ';' as int
  }

  /** A byte that does not select an action: a parameter byte, or one of the two special first bytes. */
  function Parameter(p: Parser, c: u8): (r: Parser)
    requires p.Valid() && p.controlSequence && !IsFinalByte(p, c)
    ensures r.Valid()
  {
    if p.escapeOffset == 2 && c == '[' as int then Closed(p.(discardNext := true))
    else if p.escapeOffset == 2 && c == '?' as int then p.(decPrivate := true)
    else if c == ';' as int then Separator(p)
    else if p.count == MAX_VALUES then p
    else Digit(p, c)
  }

  function ControlSequence(tb: Tables, t: Term, c: u8): (r: Term)
    requires t.Valid() && t.parser.controlSequence
    ensures r.Valid() && t.display.Kept(r.display)
  {
    if IsFinalByte(t.parser, c) then Close(FinalByte(tb, t.(parser := Finish(t.parser, c)), c))
    else t.(parser := Parameter(t.parser, c))
  }

  // ---- Escape sequences

  function OscParse(p: Parser, c: u8): (r: Parser)
    requires p.Valid()
    ensures r.Valid()
  {
    if (p.oscEscape && c == '\\' as int) || c == 0x07 then p.(oscEscape := false, osc := false, escape := false)
    else p.(oscEscape := c == 0x1b)
  }

  function OpenSequence(p: Parser): (r: Parser)
    requires p.Valid()
    ensures r.Valid()
  {
    p.(values := Zeros(), count := 0, rrr := false, controlSequence := true)
  }

  function FreshParser(codePoint: nat): (r: Parser)
    ensures r.Valid()
  {
    Parser(false, false, false, false, false, false, false, false, 0, Zeros(), 0, codePoint, 0, 0)
  }

  /** `flanterm_context_reinit`. */
  function Reinit(t: Term): (r: Term)
    requires t.Valid()
    ensures r.Valid() && t.display.Kept(r.display)
  {
    Term(t.display.(top := 0, bottom := t.display.rows, cursorEnabled := true, scrollEnabled := true),
         FreshParser(t.parser.codePoint),
         PLAIN, t.savedStyle, [CHARSET_DEFAULT, CHARSET_DEC_SPECIAL], false, 0, 0, true, true)
  }

  /** RIS. */
  function Reset(t: Term): (r: Term)
    requires t.Valid()
    ensures r.Valid() && t.display.Kept(r.display)
  {
    var r := Reinit(t);
    r.(display := r.display.Clear(true))
  }

  /** The two-byte escape sequences. */
  function EscapeFunction(t: Term, c: u8): (r: Term)
    requires t.Valid()
    ensures r.Valid() && t.display.Kept(r.display)
  {
    var d := t.display;
    if c == '7' as int then t.(display := d.SaveState(), savedStyle := t.style)
    else if c == '8' as int then t.(display := d.RestoreState(), style := t.savedStyle)
    else if c == 'D' as int then t.(display := LineFeed(d, d.X()))
    else if c == 'E' as int then t.(display := LineFeed(d, 0))
    else if c == 'M' as int then t.(display := ReverseLineFeed(d))
    else if c == '(' as int || c == ')' as int then t.(parser := t.parser.(gSelect := c - '\'' as int))
    else t
  }

  /** The byte after the start of an escape sequence. */
  function EscapeStart(t: Term, c: u8): (r: Term)
    requires t.Valid()
    ensures r.Valid() && t.display.Kept(r.display)
  {
    var p := t.parser;
    if c == ']' as int then t.(parser := p.(oscEscape := false, osc := true))
    else if c == '[' as int then t.(parser := OpenSequence(p))
    else if c == 'c' as int then Reset(t)
    else EscapeFunction(t.(parser := p.(escape := false)), c)
  }

  /** A byte inside an escape sequence. The byte after an eight-bit CSI is consumed unseen. */
  function EscapeParse(tb: Tables, t0: Term, c: u8): (r: Term)
    requires t0.Valid()
    ensures r.Valid() && t0.display.Kept(r.display)
  {
    var t := t0.(parser := t0.parser.(escapeOffset := t0.parser.escapeOffset + 1));
    var p := t.parser;
    if p.osc then t.(parser := OscParse(p, c))
    else if p.controlSequence then ControlSequence(tb, t, c)
    else if p.csi then t.(parser := OpenSequence(p.(csi := false)))
    else EscapeStart(t, c)
  }

  // ---- Bytes

  /** CAN, SUB and discarded bytes return the parser to the ground state. */
  function Abort(p: Parser): (r: Parser)
    requires p.Valid()
    ensures r.Valid()
  {
    p.(discardNext := false, escape := false, csi := false, controlSequence := false,
       values := Zeros(), unicodeRemaining := 0, osc := false, oscEscape := false, gSelect := 0)
  }

  /** Prints a decoded code point. */
  function Emit(tb: Tables, t: Term, codePoint: nat): (r: Term)
    requires t.Valid()
    ensures r.Valid() && t.display.SameFrame(r.display) && r == t.(display := r.display)
  {
    match tb.cp437(codePoint)
    case Some(g) => t.(display := t.display.RawPutchar(g))
    case None => t.(display := Box(t.display, tb.width(codePoint)))
  }

  /** The replacement for a character without a glyph: a box, and blanks up to its width. */
  function Box(d: Display, width: Width): (r: Display)
    requires d.Valid() && d.scrollEnabled
    ensures d.SameFrame(r)
  {
    if width == 0 then d
    else
      RawPutsKept(d.RawPutchar(0xfe), SPACE, width - 1);
      RawPuts(d.RawPutchar(0xfe), SPACE, width - 1)
  }

  /** The lead byte of a UTF-8 sequence. */
  function Lead(p: Parser, c: u8): (r: Parser)
    requires p.Valid() && 0xc0 <= c <= 0xf7
    ensures r.Valid()
  {
    if c <= 0xdf then p.(unicodeRemaining := 1, codePoint := c % 0x20 * 0x40)
    else if c <= 0xef then p.(unicodeRemaining := 2, codePoint := c % 0x10 * 0x1000)
    else p.(unicodeRemaining := 3, codePoint := c % 0x08 * 0x4_0000)
  }

  function WithRemaining(t: Term, n: nat): (r: Term)
    requires t.Valid() && n <= 3
    ensures r.Valid() && r == t.(parser := r.parser)
  {
    t.(parser := t.parser.(unicodeRemaining := n))
  }

  function WithBits(t: Term, c: u8): (r: Term)
    requires t.Valid() && t.parser.unicodeRemaining < 3
    ensures r.Valid() && r == t.(parser := r.parser)
  {
    t.(parser := t.parser.(codePoint := Fill(t.parser.codePoint, SixBits(c), t.parser.unicodeRemaining)))
  }

  /** A continuation byte. */
  function Continue(tb: Tables, t: Term, c: u8): (r: Term)
    requires t.Valid() && t.parser.unicodeRemaining != 0
    ensures r.Valid() && t.display.SameFrame(r.display)
  {
    var u := WithBits(WithRemaining(t, t.parser.unicodeRemaining - 1), c);
    if u.parser.unicodeRemaining != 0 then u else Emit(tb, u, u.parser.codePoint)
  }

  function Designate(t: Term, c: u8): (r: Term)
    requires t.Valid() && 1 <= t.parser.gSelect <= 2
    ensures r.Valid() && r.display == t.display
  {
    var g := t.parser.gSelect - 1;
    var charset := if c == 'B' as int then CHARSET_DEFAULT else if c == '0' as int then CHARSET_DEC_SPECIAL else t.charsets[g];
    t.(parser := t.parser.(gSelect := 0), charsets := t.charsets[g := charset])
  }

  /** A printable byte, after the control characters have been dealt with. */
  function Print(tb: Tables, t: Term, c: u8): (r: Term)
    requires t.Valid()
    ensures r.Valid() && t.display.SameFrame(r.display) && r == t.(display := r.display)
  {
    var d := if t.insertMode then MakeRoom(t.display) else t.display;
    var special := if t.charsets[t.style.charset] == CHARSET_DEC_SPECIAL then tb.special(c) else None;
    t.(display := DrawPrintable(d, special, c))
  }

  /** A glyph of the line-drawing set, or a printable character. */
  function DrawPrintable(d: Display, special: Option<u8>, c: u8): (r: Display)
    requires d.Sized() && d.top < d.bottom && d.cx <= d.cols && d.scrollEnabled
    ensures d.SameFrame(r)
  {
    if special.Some? then d.RawPutchar(special.value) else if 0x20 <= c <= 0x7e then d.RawPutchar(c) else d
  }

  /** A byte outside UTF-8 sequences. */
  function Ground(tb: Tables, t: Term, c: u8): (r: Term)
    requires t.Valid()
    ensures r.Valid() && t.display.Kept(r.display)
  {
    var p, d := t.parser, t.display;
    if 0xc0 <= c <= 0xf7 then t.(parser := Lead(p, c))
    else if p.escape then EscapeParse(tb, t, c)
    else if p.gSelect != 0 then Designate(t, c)
    else if IsControl(c) then Control(t, c)
    else Print(tb, t, c)
  }

  /** The bytes handled as control characters. The other ones below 32 are printed as nothing. */
  predicate IsControl(c: u8) {
    c == 0x00 || 0x07 <= c <= 0x0f || c == 0x1b || c == 0x7f || c == 0x9b
  }

  function Control(t: Term, c: u8): (r: Term)
    requires t.Valid() && IsControl(c)
    ensures r.Valid() && t.display.Kept(r.display)
  {
    var p, d := t.parser, t.display;
    if c == 0x00 || c == 0x7f then t
    else if c == 0x9b then t.(parser := p.(csi := true, escapeOffset := 0, escape := true))
    else if c == 0x1b then t.(parser := p.(escapeOffset := 0, escape := true))
    else if c == 0x09 then t.(display := Tab(d))
    else if c == 0x0a || c == 0x0b || c == 0x0c then t.(display := LineFeed(d, if t.onlcr then 0 else d.X()))
    else if c == 0x08 then t.(display := d.SetCursor(SizeSub(d.X(), 1), d.Y()))
    else if c == 0x0d then t.(display := d.SetCursor(0, d.Y()))
    else if c == 0x07 then t
    else if c == 0x0e then t.(style := t.style.(charset := 1))
    else t.(style := t.style.(charset := 0))
  }

  /** `c & 0x3f`. */
  function SixBits(c: u8): (r: nat)
    ensures r < 0x40
  {
    c % 0x40
  }

  predicate IsContinuation(c: u8) {
    c / 0x40 == 2
  }

  /** One byte. */
  function PutChar(tb: Tables, t: Term, c: u8): (r: Term)
    requires t.Valid()
    ensures r.Valid() && t.display.Kept(r.display)
  {
    if t.parser.discardNext || c == 0x18 || c == 0x1a then t.(parser := Abort(t.parser))
    else if t.parser.unicodeRemaining != 0 then
      if IsContinuation(c) then Continue(tb, t, c)
      else Ground(tb, WithRemaining(t, 0), c)
    else Ground(tb, t, c)
  }
}
