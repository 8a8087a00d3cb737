/**
 The control-sequence machine with its fields updated in place, on top of the framebuffer backend.

 Every method brings the fields to the state that `TerminalModel` says; `Write` adds the flush, so that the
 picture is the from-scratch drawing of the screen that the whole byte sequence leaves.
 */
module TerminalDriver {
  import opened Words
  import opened DisplayModel
  import opened Pending
  import opened Editing
  import opened TerminalModel
  import opened Steps
  import opened ControlLoops
  import opened FramebufferBackend
  import Geometry

  /** Outside a control sequence the parameter buffer is dead: what it holds does not count. */
  function Live(p: Parser): (r: Parser) {
    if p.controlSequence then p else p.(values := Zeros())
  }

  /** Parameters of which those from the `k`th up to the `i`th have their default. */
  function Filled(values: seq<u32>, k: nat, i: nat, c: u8): (r: seq<u32>)
    ensures |r| == |values|
  {
    if i <= k || |values| < i then values else values[..k] + seq(i - k, _ => Default(c)) + values[i..]
  }

  lemma FilledStep(values: seq<u32>, k: nat, i: nat, c: u8)
    requires k <= i < |values|
    ensures Filled(values, k, i, c)[i := Default(c)] == Filled(values, k, i + 1, c)
  {
  }

  lemma FilledEnds(values: seq<u32>, k: nat, c: u8)
    requires k <= |values|
    ensures Filled(values, k, k, c) == values
    ensures Filled(values, k, |values|, c) == values[..k] + seq(|values| - k, _ => Default(c))
  {
  }

  lemma SixteenValues()
    ensures MAX_VALUES == 16
  {
  }

  /** Parameters of which those up to the `i`th have been cleared. */
  function Cleared(values: seq<u32>, i: nat): (r: seq<u32>)
    requires i <= |values|
    ensures |r| == |values|
  {
    seq(i, _ => 0) + values[i..]
  }

  lemma ClearedStep(values: seq<u32>, i: nat)
    requires i < |values|
    ensures Cleared(values, i)[i := 0] == Cleared(values, i + 1)
  {
  }

  lemma ClearedEnds(values: seq<u32>)
    requires |values| == MAX_VALUES
    ensures Cleared(values, 0) == values && Cleared(values, MAX_VALUES) == Zeros() && |Zeros()| == MAX_VALUES == 16
  {
  }

  class Terminal {
    const fb: Framebuffer
    const tables: Tables

    var parser: Parser
    var style: Style
    var savedStyle: Style
    var charsets: seq<nat>
    var insertMode: bool
    var savedCursorX: nat
    var savedCursorY: nat
    var onlcr: bool
    var autoflush: bool

    ghost function State(): Term
      reads this, fb, fb.grid, fb.queue, fb.map_
    {
      Term(fb.State(), Live(parser), style, savedStyle, charsets, insertMode, savedCursorX, savedCursorY, onlcr, autoflush)
    }

    /** The invariant between bytes. */
    ghost predicate Ready()
      reads this, fb, fb.grid, fb.queue, fb.map_, fb.framebuffer
    {
      fb.Ready() && |parser.values| == MAX_VALUES && State().Valid()
    }

    lemma ReadyFacts()
      requires Ready()
      ensures fb.Ready() && |parser.values| == MAX_VALUES && State().Valid() && fb.State().Valid() && Live(parser).Valid()
      ensures fb.State().scrollEnabled
    {
    }

    lemma MakeReady()
      requires fb.Ready() && |parser.values| == MAX_VALUES && State().Valid()
      ensures Ready()
    {
    }

    lemma Parts()
      ensures State() == Term(fb.State(), Live(parser), style, savedStyle, charsets, insertMode,
                              savedCursorX, savedCursorY, onlcr, autoflush)
      ensures State().parser == parser.(values := State().parser.values)
      ensures fb.State().scrollEnabled == fb.scrollEnabled
      ensures fb.State().top == fb.scrollTop && fb.State().bottom == fb.scrollBottom
    {
    }

    ghost function CurrentColours(): Colours
      reads this, fb
    {
      Colours(fb.textFg, fb.textBg, style)
    }

    /** The screen of a new terminal is blank, in the default colours. */
    ghost predicate NewScreen(palette: Palette)
      requires fb.Shape()
      reads this, fb, fb.grid, fb.queue, fb.map_
    {
      var blank := Cell(0x20, palette.defaultFg, 0xffff_ffff);
      fb.State() == Display(fb.cols, fb.rows, palette, seq(fb.rows, _ => seq(fb.cols, _ => blank)), 0, fb.rows, true, true,
                            0, 0, palette.defaultFg, 0xffff_ffff, 0, 0, 0, 0)
    }

    /** `flanterm_fb_init`: the backend, a zeroed context, and its initialisation. */
    constructor (framebuffer: array<u32>, width: nat, height: nat, pitch: nat, canvas: seq<u32>, palette: Palette,
                 font: seq<bool>, fontWidth: nat, fontHeight: nat, scaleX: nat, scaleY: nat, margin: nat, tables: Tables)
      requires 1 <= fontWidth && 1 <= fontHeight && 1 <= scaleX && 1 <= scaleY
      requires 2 * margin + fontWidth * scaleX <= width < 0x8000_0000
      requires 2 * margin + fontHeight * scaleY <= height < 0x8000_0000
      requires width <= pitch / 4 && framebuffer.Length == height * (pitch / 4)
      requires |canvas| == height * width && |font| == Geometry.GLYPHS * fontHeight * fontWidth && palette.Valid()
      modifies framebuffer
      ensures Ready() && fresh(fb) && fresh(fb.grid) && fresh(fb.queue) && fresh(fb.map_)
      ensures fb.framebuffer == framebuffer && this.tables == tables
      ensures State() == Term(fb.State(), FreshParser(0), PLAIN, Style(false, false, false, Some(0), Some(0), 0),
                              [CHARSET_DEFAULT, CHARSET_DEC_SPECIAL], false, 0, 0, true, true)
      ensures fb.cols == (width - 2 * margin) / (fontWidth * scaleX) && fb.rows == (height - 2 * margin) / (fontHeight * scaleY)
      ensures NewScreen(palette)
      ensures fb.Redrawn() && fb.Shown()
    {
      fb := new Framebuffer(framebuffer, width, height, pitch, canvas, palette, font, fontWidth, fontHeight, scaleX, scaleY, margin);
      this.tables := tables;
      parser, style := FreshParser(0), PLAIN;
      savedStyle := Style(false, false, false, Some(0), Some(0), 0);
      charsets, insertMode, savedCursorX, savedCursorY := [CHARSET_DEFAULT, CHARSET_DEC_SPECIAL], false, 0, 0;
      onlcr, autoflush := true, true;
    }

    /** One parameter of SGR other than 38 and 48. */
    method SgrParameter(v: u32)
      requires fb.Ready() && style.Valid()
      modifies this`style, fb`textFg, fb`textBg
      ensures fb.Ready() && CurrentColours() == Attribute(fb.palette, old(CurrentColours()), v)
    {
      hide Framebuffer.Ready, Framebuffer.Lines, Framebuffer.Shape;
      if v == 0 {
        if style.reverseVideo {
          style := style.(reverseVideo := false);
          fb.SwapPalette();
        }
        style := style.(bold := false);
        style := style.(bgBold := false);
        style := style.(primary := None);
        style := style.(background := None);
        fb.SetTextBgDefault();
        fb.SetTextFgDefault();
      } else if v == 1 || v == 5 || v == 22 || v == 25 {
        SgrIntensity(v);
      } else {
        SgrColour(v);
      }
    }

    /** The intensity parameters. */
    method SgrIntensity(v: u32)
      requires fb.Ready() && style.Valid() && (v == 1 || v == 5 || v == 22 || v == 25)
      modifies this`style, fb`textFg, fb`textBg
      ensures fb.Ready() && CurrentColours() == Attribute(fb.palette, old(CurrentColours()), v)
    {
      hide Framebuffer.Ready, Framebuffer.Lines, Framebuffer.Shape;
      if v == 1 {
        style := style.(bold := true);
        if style.primary != None {
          if !style.reverseVideo {
            fb.SetTextFgBright(style.primary.value);
          } else {
            fb.SetTextBgBright(style.primary.value);
          }
        } else {
          if !style.reverseVideo {
            fb.SetTextFgDefaultBright();
          } else {
            fb.SetTextBgDefaultBright();
          }
        }
      } else if v == 5 {
        style := style.(bgBold := true);
        if style.background != None {
          if !style.reverseVideo {
            fb.SetTextBgBright(style.background.value);
          } else {
            fb.SetTextFgBright(style.background.value);
          }
        } else {
          if !style.reverseVideo {
            fb.SetTextBgDefaultBright();
          } else {
            fb.SetTextFgDefaultBright();
          }
        }
      } else if v == 22 {
        style := style.(bold := false);
        if style.primary != None {
          if !style.reverseVideo {
            fb.SetTextFg(style.primary.value);
          } else {
            fb.SetTextBg(style.primary.value);
          }
        } else {
          if !style.reverseVideo {
            fb.SetTextFgDefault();
          } else {
            fb.SetTextBgDefault();
          }
        }
      } else {
        style := style.(bgBold := false);
        if style.background != None {
          if !style.reverseVideo {
            fb.SetTextBg(style.background.value);
          } else {
            fb.SetTextFg(style.background.value);
          }
        } else {
          if !style.reverseVideo {
            fb.SetTextBgDefault();
          } else {
            fb.SetTextFgDefault();
          }
        }
      }
    }

    /** The colour parameters. */
    method SgrColour(v: u32)
      requires fb.Ready() && style.Valid() && v != 0 && v != 1 && v != 5 && v != 22 && v != 25
      modifies this`style, fb`textFg, fb`textBg
      ensures fb.Ready() && CurrentColours() == Attribute(fb.palette, old(CurrentColours()), v)
    {
      hide Framebuffer.Ready, Framebuffer.Lines, Framebuffer.Shape;
      if 30 <= v <= 37 {
        style := style.(primary := Some(v - 30));
        if style.reverseVideo {
          SetBg(v - 30);
        } else {
          SetFg(v - 30);
        }
      } else if 40 <= v <= 47 {
        style := style.(background := Some(v - 40));
        if style.reverseVideo {
          SetFg(v - 40);
        } else {
          SetBg(v - 40);
        }
      } else if 90 <= v <= 97 {
        style := style.(primary := Some(v - 90));
        if style.reverseVideo {
          fb.SetTextBgBright(v - 90);
        } else {
          fb.SetTextFgBright(v - 90);
        }
      } else if 100 <= v <= 107 {
        style := style.(background := Some(v - 100));
        if style.reverseVideo {
          fb.SetTextFgBright(v - 100);
        } else {
          fb.SetTextBgBright(v - 100);
        }
      } else {
        SgrDefault(v);
      }
    }

    /** The default colours and reverse video. */
    method SgrDefault(v: u32)
      requires fb.Ready() && style.Valid() && v != 0 && v != 1 && v != 5 && v != 22 && v != 25
      requires !(30 <= v <= 37) && !(40 <= v <= 47) && !(90 <= v <= 97) && !(100 <= v <= 107)
      modifies this`style, fb`textFg, fb`textBg
      ensures fb.Ready() && CurrentColours() == Attribute(fb.palette, old(CurrentColours()), v)
    {
      hide Framebuffer.Ready, Framebuffer.Lines, Framebuffer.Shape;
      if v == 39 {
        style := style.(primary := None);
        if style.reverseVideo {
          fb.SwapPalette();
        }
        if !style.bold {
          fb.SetTextFgDefault();
        } else {
          fb.SetTextFgDefaultBright();
        }
        if style.reverseVideo {
          fb.SwapPalette();
        }
      } else if v == 49 {
        style := style.(background := None);
        if style.reverseVideo {
          fb.SwapPalette();
        }
        if !style.bgBold {
          fb.SetTextBgDefault();
        } else {
          fb.SetTextBgDefaultBright();
        }
        if style.reverseVideo {
          fb.SwapPalette();
        }
      } else if v == 7 {
        if !style.reverseVideo {
          style := style.(reverseVideo := true);
          fb.SwapPalette();
        }
      } else if v == 27 {
        if style.reverseVideo {
          style := style.(reverseVideo := false);
          fb.SwapPalette();
        }
      }
    }

    /** The label `set_fg` of the source: the intensity is that of the attribute drawn in front. */
    method SetFg(colour: nat)
      requires fb.Ready() && colour < 8
      modifies fb`textFg
      ensures fb.Ready()
      ensures fb.textFg == if (if style.reverseVideo then style.bgBold else style.bold) then fb.palette.bright[colour] else fb.palette.ansi[colour]
    {
      if (style.bold && !style.reverseVideo) || (style.bgBold && style.reverseVideo) {
        fb.SetTextFgBright(colour);
      } else {
        fb.SetTextFg(colour);
      }
    }

    /** The label `set_bg` of the source. */
    method SetBg(colour: nat)
      requires fb.Ready() && colour < 8
      modifies fb`textBg
      ensures fb.Ready()
      ensures fb.textBg == if (if style.reverseVideo then style.bold else style.bgBold) then fb.palette.bright[colour] else fb.palette.ansi[colour]
    {
      if (style.bold && style.reverseVideo) || (style.bgBold && !style.reverseVideo) {
        fb.SetTextBgBright(colour);
      } else {
        fb.SetTextBg(colour);
      }
    }

    /** All parameters of SGR, or a reset if there are none. */
    method Sgr()
      requires fb.Ready() && style.Valid() && parser.count <= |parser.values|
      modifies this`style, fb`textFg, fb`textBg
      ensures fb.Ready()
      ensures CurrentColours() == TerminalModel.Sgr(tables, fb.palette, old(CurrentColours()), parser.values, parser.count)
    {
      hide *;
      ColourParts();
      SgrIs(tables, fb.palette, CurrentColours(), parser.values, parser.count);
      if parser.count == 0 {
        SgrParameter(0);
        return;
      }
      ghost var all := SgrFrom(tables, fb.palette, CurrentColours(), parser.values, parser.count, 0);
      var i := 0;
      while i < parser.count
        invariant 0 <= i && fb.Ready() && CurrentColours().style.Valid()
        invariant SgrFrom(tables, fb.palette, CurrentColours(), parser.values, parser.count, i) == all
        decreases parser.count - i
      {
        ColourParts();
        SgrUnfold(tables, fb.palette, CurrentColours(), parser.values, parser.count, i);
        var v := parser.values[i];
        if v == 38 || v == 48 {
          i := i + 1;
          if i >= parser.count {
            break;
          }
          if parser.values[i] == 2 {
            if i + 3 >= parser.count {
              break;
            }
            var rgbValue := Rgb(parser.values[i + 1], parser.values[i + 2], parser.values[i + 3]);
            i := i + 3;
            SetRgb(v == 38, rgbValue);
          } else if parser.values[i] == 5 {
            if i + 1 >= parser.count {
              break;
            }
            var col := parser.values[i + 1];
            i := i + 1;
            SetIndexed(v == 38, col);
          }
        } else {
          SgrParameter(v);
        }
        ColourParts();
        i := i + 1;
      }
      ColourParts();
      SgrUnfold(tables, fb.palette, CurrentColours(), parser.values, parser.count, i);
    }

    lemma ColourParts()
      ensures CurrentColours() == Colours(fb.textFg, fb.textBg, style)
      ensures fb.Ready() ==> fb.palette.Valid()
      ensures fb.State().palette == fb.palette
    {
    }

    static lemma SgrIs(tb: Tables, p: Palette, c: Colours, values: seq<u32>, count: nat)
      requires p.Valid() && c.style.Valid() && count <= |values|
      ensures TerminalModel.Sgr(tb, p, c, values, count)
        == if count == 0 then Attribute(p, c, 0) else SgrFrom(tb, p, c, values, count, 0)
    {
    }

    static lemma SgrUnfold(tb: Tables, p: Palette, c: Colours, values: seq<u32>, count: nat, i: nat)
      requires p.Valid() && c.style.Valid() && count <= |values|
      ensures SgrFrom(tb, p, c, values, count, i) ==
        if i >= count then c
        else if values[i] == 38 || values[i] == 48 then
          if i + 1 >= count then c
          else if values[i + 1] == 2 then
            if i + 4 >= count then c
            else SgrFrom(tb, p, SetDirect(c, values[i] == 38, Rgb(values[i + 2], values[i + 3], values[i + 4])), values, count, i + 5)
          else if values[i + 1] == 5 then
            if i + 2 >= count then c
            else SgrFrom(tb, p, SetDirect(c, values[i] == 38, Indexed(tb, p, values[i + 2])), values, count, i + 3)
          else SgrFrom(tb, p, c, values, count, i + 2)
        else SgrFrom(tb, p, Attribute(p, c, values[i]), values, count, i + 1)
    {
      hide Attribute, Rgb, Indexed;
    }

    method SetRgb(fg: bool, colour: u32)
      requires fb.Ready()
      modifies fb`textFg, fb`textBg
      ensures fb.Ready() && CurrentColours() == SetDirect(old(CurrentColours()), fg, colour)
    {
      if fg {
        fb.SetTextFgRgb(colour);
      } else {
        fb.SetTextBgRgb(colour);
      }
    }

    /** Colours of the 256-colour form. */
    method SetIndexed(fg: bool, col: u32)
      requires fb.Ready()
      modifies fb`textFg, fb`textBg
      ensures fb.Ready() && CurrentColours() == SetDirect(old(CurrentColours()), fg, Indexed(tables, fb.palette, col))
    {
      if col < 8 {
        if fg {
          fb.SetTextFg(col);
        } else {
          fb.SetTextBg(col);
        }
      } else if col < 16 {
        if fg {
          fb.SetTextFgBright(col - 8);
        } else {
          fb.SetTextBgBright(col - 8);
        }
      } else {
        SetRgb(fg, tables.col256(col - 16));
      }
    }

    /** CUU and CPL. */
    method KeyUp(x: nat, y: nat)
      requires fb.Ready() && |parser.values| == MAX_VALUES && y == fb.State().Y()
      modifies fb`cursorX, fb`cursorY
      ensures fb.Ready() && fb.State() == CursorUp(old(fb.State()), parser.values[0], x)
    {
      hide Framebuffer.Shape, Framebuffer.Lines, Display.SetCursor;
      var n := if parser.values[0] > y then y else parser.values[0];
      var origY, destY := y, y - n;
      var willBeInScrollRegion :=
        (fb.scrollTop >= destY && fb.scrollTop <= origY) || (fb.scrollBottom >= destY && fb.scrollBottom <= origY);
      if willBeInScrollRegion && destY < fb.scrollTop {
        destY := fb.scrollTop;
      }
      fb.SetCursorPos(x, destY);
    }

    /** CUD and CNL. */
    method KeyDown(x: nat, y: nat)
      requires fb.Ready() && |parser.values| == MAX_VALUES && y == fb.State().Y()
      requires fb.scrollTop < fb.scrollBottom
      modifies fb`cursorX, fb`cursorY
      ensures fb.Ready() && fb.State() == CursorDown(old(fb.State()), parser.values[0], x)
    {
      hide Framebuffer.Shape, Framebuffer.Lines, Display.SetCursor;
      var n := if y + parser.values[0] > fb.rows - 1 then (fb.rows - 1) - y else parser.values[0];
      var origY, destY := y, y + n;
      var willBeInScrollRegion :=
        (fb.scrollTop >= origY && fb.scrollTop <= destY) || (fb.scrollBottom >= origY && fb.scrollBottom <= destY);
      if willBeInScrollRegion && destY >= fb.scrollBottom {
        destY := fb.scrollBottom - 1;
      }
      fb.SetCursorPos(x, destY);
    }

    /** CUP. */
    method KeyPosition()
      requires fb.Ready() && |parser.values| == MAX_VALUES
      modifies fb`cursorX, fb`cursorY
      ensures fb.Ready()
      ensures var d := old(fb.State());
        fb.State() == d.SetCursor(Position(parser.values[1], d.cols), Position(parser.values[0], d.rows))
    {
      hide Framebuffer.Shape, Framebuffer.Lines, Display.SetCursor;
      var row := if parser.values[0] != 0 then parser.values[0] - 1 else 0;
      var column := if parser.values[1] != 0 then parser.values[1] - 1 else 0;
      if column >= fb.cols {
        column := fb.cols - 1;
      }
      if row >= fb.rows {
        row := fb.rows - 1;
      }
      fb.SetCursorPos(column, row);
    }

    /** CUF, CUB, VPA and CHA. */
    method KeyAlong(c: u8, x: nat, y: nat)
      requires fb.Ready() && fb.State().Valid() && |parser.values| == MAX_VALUES
      requires x == fb.State().X() && y == fb.State().Y()
      requires c in {'a' as int, 'C' as int, 'D' as int, 'd' as int, 'G' as int, '`' as int}
      modifies fb`cursorX, fb`cursorY
      ensures fb.Ready() && fb.State() == MoveCursor(old(fb.State()), parser.values[0], parser.values[1], c)
    {
      hide Framebuffer.Shape, Framebuffer.Lines, Display.SetCursor, Framebuffer.Ready, CursorUp, CursorDown, Position;
      if c == 'a' as int || c == 'C' as int {
        var n := if x + parser.values[0] > fb.cols - 1 then (fb.cols - 1) - x else parser.values[0];
        fb.SetCursorPos(x + n, y);
      } else if c == 'D' as int {
        var n := if parser.values[0] > x then x else parser.values[0];
        fb.SetCursorPos(x - n, y);
      } else if c == 'd' as int {
        var row := (parser.values[0] - 1) % WORD_MODULUS;
        fb.SetCursorPos(x, if row >= fb.rows then fb.rows - 1 else row);
      } else if c == 'G' as int || c == '`' as int {
        var column := (parser.values[0] - 1) % WORD_MODULUS;
        fb.SetCursorPos(if column >= fb.cols then fb.cols - 1 else column, y);
      }
    }

    /** The final bytes that only move the cursor. */
    method KeyMove(c: u8)
      requires fb.Ready() && fb.State().Valid() && |parser.values| == MAX_VALUES
      modifies fb`cursorX, fb`cursorY
      ensures fb.Ready() && fb.State() == MoveCursor(old(fb.State()), parser.values[0], parser.values[1], c)
    {
      hide Framebuffer.Shape, Framebuffer.Lines, Display.SetCursor, Framebuffer.Ready, CursorUp, CursorDown, Position;
      var x, y := fb.GetCursorPos();
      if c == 'F' as int {
        KeyUp(0, y);
      } else if c == 'A' as int {
        KeyUp(x, y);
      } else if c == 'E' as int {
        KeyDown(0, y);
      } else if c == 'e' as int || c == 'B' as int {
        KeyDown(x, y);
      } else if c in {'a' as int, 'C' as int, 'D' as int, 'd' as int, 'G' as int, '`' as int} {
        KeyAlong(c, x, y);
      } else if c == 'H' as int || c == 'f' as int {
        KeyPosition();
      }
    }

    /** ED. */
    method KeyEraseDisplay(x: nat, y: nat)
      requires fb.Ready() && fb.State().Valid() && |parser.values| == MAX_VALUES
      requires x == fb.State().X() && y == fb.State().Y()
      modifies fb`queueI, fb`cursorX, fb`cursorY, fb.queue, fb.map_
      ensures fb.Ready() && fb.State() == EraseDisplay(old(fb.State()), parser.values[0])
    {
      hide Framebuffer.Shape, Framebuffer.Lines, Display.SetCursor, Framebuffer.Ready, RawPuts, Display.Clear, Times, Index;
      if parser.values[0] == 0 {
        var rowsRemaining, colsDiff := fb.rows - (y + 1), fb.cols - (x + 1);
        PutBlanks(fb, Times(rowsRemaining, fb.cols) + colsDiff + 1);
        fb.SetCursorPos(x, y);
      } else if parser.values[0] == 1 {
        EraseAbove(fb, x, y);
      } else if parser.values[0] == 2 || parser.values[0] == 3 {
        fb.Clear(false);
      }
    }

    /** EL. */
    method KeyEraseLine(x: nat, y: nat)
      requires fb.Ready() && fb.State().Valid() && |parser.values| == MAX_VALUES
      requires x == fb.State().X() && y == fb.State().Y()
      modifies fb`queueI, fb`cursorX, fb`cursorY, fb.queue, fb.map_
      ensures fb.Ready() && fb.State() == EraseLine(old(fb.State()), parser.values[0])
    {
      hide Framebuffer.Shape, Framebuffer.Lines, Display.SetCursor, Framebuffer.Ready, RawPuts;
      if parser.values[0] == 0 {
        PutBlanks(fb, fb.cols - x);
        fb.SetCursorPos(x, y);
      } else if parser.values[0] == 1 {
        fb.SetCursorPos(0, y);
        PutBlanks(fb, x);
      } else if parser.values[0] == 2 {
        fb.SetCursorPos(0, y);
        PutBlanks(fb, fb.cols);
        fb.SetCursorPos(x, y);
      }
    }

    /** IL. */
    method KeyInsertLines(y: nat)
      requires fb.Ready() && fb.State().Valid() && |parser.values| == MAX_VALUES
      requires y == fb.State().Y()
      modifies fb`queueI, fb`scrollTop, fb`scrollBottom, fb.queue, fb.map_
      ensures fb.Ready() && fb.State() == InsertLines(old(fb.State()), parser.values[0])
    {
      hide Framebuffer.Shape, Framebuffer.Lines, Framebuffer.Ready, RevScrolls;
      var oldScrollTopMargin := fb.scrollTop;
      fb.SetScrollMargins(y, fb.scrollBottom);
      RevScrollTimes(fb, parser.values[0]);
      fb.SetScrollMargins(oldScrollTopMargin, fb.scrollBottom);
    }

    /** DECSTBM. */
    method KeySetMargins()
      requires fb.Ready() && |parser.values| == MAX_VALUES
      modifies fb`scrollTop, fb`scrollBottom, fb`cursorX, fb`cursorY
      ensures fb.Ready()
      ensures fb.State() == SetMargins(old(fb.State()), parser.count, parser.values[0], parser.values[1])
    {
      hide Framebuffer.Shape, Framebuffer.Lines, Framebuffer.Ready, Display.SetCursor;
      var first := if parser.values[0] == 0 then 1 else parser.values[0];
      var last := if parser.values[1] == 0 then 1 else parser.values[1];
      var top, bottom := 0, fb.rows;
      if parser.count > 0 {
        top := first - 1;
      }
      if parser.count > 1 {
        bottom := last;
      }
      if top >= fb.rows || bottom > fb.rows || top >= bottom - 1 {
        top, bottom := 0, fb.rows;
      }
      fb.SetScrollMargins(top, bottom);
      fb.SetCursorPos(0, 0);
    }

    /** The final bytes that edit the screen or set the region. */
    method KeyEdit(c: u8)
      requires fb.Ready() && fb.State().Valid() && |parser.values| == MAX_VALUES
      modifies fb`queueI, fb`cursorX, fb`cursorY, fb`scrollTop, fb`scrollBottom, fb.queue, fb.map_
      ensures fb.Ready()
      ensures fb.State() == Edit(old(fb.State()), parser.values[0], parser.values[1], parser.count, c)
    {
      hide Framebuffer.Shape, Framebuffer.Lines, Framebuffer.Ready, InsertLines, EraseDisplay, InsertCharacters,
        DeleteCharacters, EraseCharacters, EraseLine, SetMargins, Scrolls, Display.Sized;
      var x, y := fb.GetCursorPos();
      if c == 'M' as int {
        ScrollTimes(fb, parser.values[0]);
      } else if c == 'L' as int {
        KeyInsertLines(y);
      } else if c == 'J' as int {
        KeyEraseDisplay(x, y);
      } else if c == '@' as int {
        InsertBlanks(fb, parser.values[0]);
      } else if c == 'P' as int {
        DeleteCells(fb, parser.values[0]);
      } else if c == 'X' as int {
        EraseCells(fb, parser.values[0]);
      } else if c == 'K' as int {
        KeyEraseLine(x, y);
      } else if c == 'r' as int {
        KeySetMargins();
      }
    }

    /** The action of a final byte. */
    method Dispatch(c: u8)
      requires fb.Ready() && |parser.values| == MAX_VALUES
      requires State().Settled() && parser.count <= MAX_VALUES && parser.controlSequence
      modifies this`style, this`insertMode,
               this`savedCursorX, this`savedCursorY,
               fb`queueI, fb`cursorX, fb`cursorY, fb`scrollTop, fb`scrollBottom, fb`textFg, fb`textBg, fb.queue, fb.map_
      ensures fb.Ready()
      ensures var r := TerminalModel.Dispatch(tables, old(State()), c);
        && fb.State() == r.display && style == r.style && insertMode == r.insertMode
        && savedCursorX == r.savedX && savedCursorY == r.savedY
    {
      hide Framebuffer.Shape, Framebuffer.Lines, Framebuffer.Ready, EditOrMove, SelectGraphics, Display.Sized;
      if c == 'm' as int {
        KeyGraphics();
      } else if c == 's' as int {
        savedCursorX, savedCursorY := fb.GetCursorPos();
      } else if c == 'u' as int {
        fb.SetCursorPos(savedCursorX, savedCursorY);
      } else if c == 'l' as int || c == 'h' as int {
        ModeToggle(c);
      } else {
        KeyEditOrMove(c);
      }
    }

    /** SGR on the colours of the screen. */
    method KeyGraphics()
      requires fb.Ready() && State().Settled() && parser.count <= |parser.values| && parser.controlSequence
      modifies this`style, fb`textFg, fb`textBg
      ensures fb.Ready()
      ensures fb.State() == SelectGraphics(tables, old(State())).display && style == SelectGraphics(tables, old(State())).style
    {
      hide Framebuffer.Shape, Framebuffer.Lines, Framebuffer.Ready, TerminalModel.Sgr, Display.Sized;
      Sgr();
    }

    /** The final bytes that change the screen. */
    method KeyEditOrMove(c: u8)
      requires fb.Ready() && fb.State().Valid() && |parser.values| == MAX_VALUES
      modifies fb`queueI, fb`cursorX, fb`cursorY, fb`scrollTop, fb`scrollBottom, fb.queue, fb.map_
      ensures fb.Ready()
      ensures fb.State() == EditOrMove(old(fb.State()), parser.values[0], parser.values[1], parser.count, c)
    {
      hide *;
      SixteenValues();
      EditOrMoveIs(fb.State(), parser.values[0], parser.values[1], parser.count, c);
      if MovesCursor(c) {
        KeyMove(c);
      } else {
        KeyEdit(c);
      }
    }

    static lemma EditOrMoveIs(d: Display, v0: u32, v1: u32, count: nat, c: u8)
      requires d.Valid()
      ensures EditOrMove(d, v0, v1, count, c) == if MovesCursor(c) then MoveCursor(d, v0, v1, c) else Edit(d, v0, v1, count, c)
    {
    }

    /** SM and RM: only the insert mode is known. */
    method ModeToggle(c: u8)
      requires |parser.values| == MAX_VALUES
      modifies this`insertMode
      ensures insertMode == if parser.count != 0 && (c == 'h' as int || c == 'l' as int) && parser.values[0] == 4 then c == 'h' as int
                            else old(insertMode)
    {
      if parser.count == 0 {
        return;
      }
      var set_;
      if c == 'h' as int {
        set_ := true;
      } else if c == 'l' as int {
        set_ := false;
      } else {
        return;
      }
      if parser.values[0] == 4 {
        insertMode := set_;
      }
    }

    /** DECSET and DECRST. */
    method DecPrivateParse(c: u8)
      requires |parser.values| == MAX_VALUES && fb.Ready()
      modifies this`parser, fb`cursorEnabled
      ensures parser == old(parser).(decPrivate := false) && fb.Ready()
      ensures fb.State() == old(fb.State()).(cursorEnabled :=
        if parser.count != 0 && (c == 'h' as int || c == 'l' as int) && parser.values[0] == 25
        then c == 'h' as int else old(fb.State()).cursorEnabled)
    {
      parser := parser.(decPrivate := false);
      if parser.count == 0 {
        return;
      }
      var set_;
      if c == 'h' as int {
        set_ := true;
      } else if c == 'l' as int {
        set_ := false;
      } else {
        return;
      }
      if parser.values[0] == 25 {
        fb.SetCursorEnabled(set_);
      }
    }


    /** The parameters that were not given take their default. */
    method FillDefaults(c: u8)
      requires |parser.values| == MAX_VALUES && parser.count <= MAX_VALUES
      modifies this`parser
      ensures parser == old(parser).(values := old(parser.values[..parser.count]) + seq(MAX_VALUES - old(parser.count), _ => Default(c)))
    {
      hide *;
      SixteenValues();
      ghost var p := parser;
      FilledEnds(p.values, p.count, c);
      var i := parser.count;
      while i < MAX_VALUES
        invariant p.count <= i <= MAX_VALUES && parser == p.(values := Filled(p.values, p.count, i, c))
      {
        FilledStep(p.values, p.count, i, c);
        parser := parser.(values := parser.values[i := Default(c)]);
        i := i + 1;
      }
    }

    /** A digit of a parameter. */
    method AddDigit(c: u8)
      requires parser.Valid() && parser.controlSequence && parser.count < MAX_VALUES && '0' as int <= c <= '9' as int
      modifies this`parser
      ensures parser == Digit(old(parser), c)
      ensures |parser.values| == MAX_VALUES && parser.controlSequence
    {
      var i := parser.count;
      parser := parser.(rrr := true);
      parser := parser.(values := parser.values[i := parser.values[i] * 10 % WORD_MODULUS]);
      parser := parser.(values := parser.values[i := (parser.values[i] + (c - '0' as int)) % WORD_MODULUS]);
    }

    /** A semicolon ends a number, or stands for a zero. */
    method EndParameter()
      requires parser.Valid() && parser.controlSequence
      modifies this`parser
      ensures parser == Separator(old(parser))
      ensures |parser.values| == MAX_VALUES && parser.controlSequence
    {
      if parser.rrr {
        parser := parser.(count := parser.count + 1);
        parser := parser.(rrr := false);
      } else if parser.count < MAX_VALUES {
        parser := parser.(values := parser.values[parser.count := 0]);
        parser := parser.(count := parser.count + 1);
      }
    }

    /** A final byte ends a pending number; the parameters that were not given take their default. */
    method FinishParameters(c: u8)
      requires parser.Valid() && parser.controlSequence
      modifies this`parser
      ensures parser == Finish(old(parser), c)
      ensures |parser.values| == MAX_VALUES && parser.controlSequence
    {
      if parser.rrr {
        parser := parser.(count := parser.count + 1);
        parser := parser.(rrr := false);
      }
      FillDefaults(c);
    }

    /** A byte that is not the last one of its sequence; or, for a final byte, the end of the parameters. */
    method ParameterByte(c: u8) returns (last: bool)
      requires parser.Valid() && parser.controlSequence
      modifies this`parser
      ensures last == IsFinalByte(old(parser), c)
      ensures Live(parser) == if last then Finish(old(parser), c) else Parameter(old(parser), c)
      ensures |parser.values| == MAX_VALUES && (last ==> parser.controlSequence)
    {
      assert |parser.values| == MAX_VALUES && parser.count <= MAX_VALUES;
      hide Digit, Separator, Finish, Parser.Valid, Zeros, Framebuffer.Ready, Framebuffer.State;
      if parser.escapeOffset == 2 && c == '[' as int {
        parser := parser.(discardNext := true);
        parser := parser.(controlSequence := false, escape := false);
        return false;
      }
      if parser.escapeOffset == 2 && c == '?' as int {
        parser := parser.(decPrivate := true);
        return false;
      }
      if '0' as int <= c <= '9' as int {
        if parser.count < MAX_VALUES {
          AddDigit(c);
        }
        return false;
      }
      if c == ';' as int {
        EndParameter();
        return false;
      }
      FinishParameters(c);
      return true;
    }

    /** A byte of a control sequence. */
    method ControlSequenceParse(c: u8)
      requires Ready() && parser.controlSequence
      modifies this, fb, fb.queue, fb.map_
      ensures Ready() && State() == ControlSequence(tables, old(State()), c)
    {
      hide Framebuffer.Ready, Framebuffer.State, Finish, Parameter, IsFinalByte, TerminalModel.FinalByte, Display.Valid;
      ghost var t, p := State(), parser;
      var last := ParameterByte(c);
      assert State() == t.(parser := Live(parser));
      if last {
        FinalByte(c);
      }
    }

    /** The final byte of a sequence, with its parameters complete. */
    method FinalByte(c: u8)
      requires Ready() && parser.controlSequence
      modifies this, fb, fb.queue, fb.map_
      ensures Ready() && State() == Close(TerminalModel.FinalByte(tables, old(State()), c))
    {
      ghost var t := State();
      ghost var r := TerminalModel.FinalByte(tables, t, c);
      hide Framebuffer.Ready, Framebuffer.State, Display.Valid, TerminalModel.Dispatch, DecPrivate;
      if parser.decPrivate {
        DecByte(c);
      } else {
        AnsiByte(c);
      }
      assert State() == r;
      hide State;
      CloseSequence();
    }

    /** The label `cleanup` of the source. */
    method CloseSequence()
      requires fb.Ready() && |parser.values| == MAX_VALUES && State().Valid()
      modifies this`parser
      ensures Ready() && State() == Close(old(State()))
    {
      hide Framebuffer.Ready, Framebuffer.State, Display.Valid;
      ghost var t := State();
      parser := parser.(controlSequence := false);
      parser := parser.(escape := false);
      assert State() == Close(t);
    }

    method DecByte(c: u8)
      requires Ready() && parser.controlSequence
      modifies this`parser, fb`cursorEnabled
      ensures fb.Ready() && State() == DecPrivate(old(State()), c) && parser.controlSequence && |parser.values| == MAX_VALUES
    {
      hide Framebuffer.Ready, Framebuffer.State, Display.Valid;
      DecPrivateParse(c);
    }

    /** The action of a final byte, with scrolling disabled. */
    method AnsiByte(c: u8)
      requires Ready() && parser.controlSequence && !parser.decPrivate
      modifies this`style, this`insertMode, this`savedCursorX, this`savedCursorY, fb`queueI, fb`cursorX, fb`cursorY,
               fb`scrollTop, fb`scrollBottom, fb`textFg, fb`textBg, fb`scrollEnabled, fb.queue, fb.map_
      ensures fb.Ready() && State() == TerminalModel.FinalByte(tables, old(State()), c)
    {
      hide *;
      ReadyFacts();
      Parts();
      ghost var t := State();
      FinalByteIs(tables, t, c);
      var r := fb.scrollEnabled;
      fb.SetScrollEnabled(false);
      Parts();
      assert State() == Held(t);
      Dispatch(c);
      fb.SetScrollEnabled(r);
      Parts();
    }

    static function Held(t: Term): (r: Term)
      requires t.Valid()
      ensures r.Settled() && |r.parser.values| == MAX_VALUES && r.parser.count <= MAX_VALUES
    {
      t.(display := t.display.(scrollEnabled := false))
    }

    static lemma FinalByteIs(tb: Tables, t: Term, c: u8)
      requires t.Valid() && !t.parser.decPrivate
      ensures Held(t) == t.(display := t.display.(scrollEnabled := false))
      ensures var r := TerminalModel.Dispatch(tb, Held(t), c);
        && TerminalModel.FinalByte(tb, t, c) == r.(display := r.display.(scrollEnabled := t.display.scrollEnabled))
        && r == t.(display := r.display, style := r.style, insertMode := r.insertMode, savedX := r.savedX, savedY := r.savedY)
    {
      hide TerminalModel.Dispatch;
    }

    static lemma WithParser(t: Term, p: Parser)
      requires t.Valid()
      ensures p.Valid() ==> t.(parser := p).Valid()
    {
    }

    /** A byte of an operating system command: it is ignored up to a bell or a string terminator. */
    method OscByte(c: u8)
      requires Ready()
      modifies this`parser
      ensures Ready() && State() == old(State()).(parser := OscParse(old(State()).parser, c))
    {
      hide *;
      ReadyFacts();
      Parts();
      ghost var t := State();
      OscParserByte(c);
      Parts();
      WithParser(t, Live(parser));
      MakeReady();
    }

    method OscParserByte(c: u8)
      requires Live(parser).Valid()
      modifies this`parser
      ensures Live(parser) == OscParse(old(Live(parser)), c) && |parser.values| == old(|parser.values|)
    {
      hide Zeros, Parser.Valid;
      if parser.oscEscape && c == '\\' as int {
        EndOsc();
        return;
      }
      parser := parser.(oscEscape := false);
      if c == 0x1b {
        parser := parser.(oscEscape := true);
      } else if c == 0x07 {
        EndOsc();
      }
    }

    method EndOsc()
      modifies this`parser
      ensures parser == old(parser).(oscEscape := false, osc := false, escape := false)
    {
      parser := parser.(oscEscape := false);
      parser := parser.(osc := false);
      parser := parser.(escape := false);
    }

    /** The label `is_csi` of the source. */
    method OpenControlSequence()
      requires Ready()
      modifies this`parser
      ensures Ready() && State() == old(State()).(parser := OpenSequence(old(State()).parser))
    {
      hide *;
      ReadyFacts();
      Parts();
      ghost var t := State();
      OpenParser();
      Parts();
      WithParser(t, Live(parser));
      MakeReady();
    }

    method OpenParser()
      requires Live(parser).Valid() && |parser.values| == MAX_VALUES
      modifies this`parser
      ensures Live(parser) == OpenSequence(old(Live(parser))) && |parser.values| == MAX_VALUES
    {
      hide Zeros, Parser.Valid;
      ClearValues();
      parser := parser.(count := 0);
      parser := parser.(rrr := false);
      parser := parser.(controlSequence := true);
    }

    method ClearValues()
      requires |parser.values| == MAX_VALUES
      modifies this`parser
      ensures parser == old(parser).(values := Zeros()) && |Zeros()| == MAX_VALUES
    {
      hide *;
      ghost var p := parser;
      ClearedEnds(p.values);
      var i := 0;
      while i < MAX_VALUES
        invariant 0 <= i <= MAX_VALUES && parser == p.(values := Cleared(p.values, i))
      {
        ClearedStep(p.values, i);
        parser := parser.(values := parser.values[i := 0]);
        i := i + 1;
      }
    }

    /** Down one row, scrolling at the bottom of the region. */
    method IndexLine(x: nat, y: nat)
      requires fb.Ready() && fb.State().Valid() && y == fb.State().Y()
      modifies fb`queueI, fb`cursorX, fb`cursorY, fb.queue, fb.map_
      ensures fb.Ready() && fb.State() == LineFeed(old(fb.State()), x)
    {
      hide Framebuffer.Shape, Framebuffer.Lines, Framebuffer.Ready, Display.Scroll, Display.SetCursor;
      if y == fb.scrollBottom - 1 {
        fb.Scroll();
        fb.SetCursorPos(x, y);
      } else {
        fb.SetCursorPos(x, y + 1);
      }
    }

    /** Up one row, scrolling back at the top of the region. */
    method ReverseIndexLine(y: nat)
      requires fb.Ready() && fb.State().Valid() && y == fb.State().Y()
      modifies fb`queueI, fb`cursorX, fb`cursorY, fb.queue, fb.map_
      ensures fb.Ready() && fb.State() == ReverseLineFeed(old(fb.State()))
    {
      hide Framebuffer.Shape, Framebuffer.Lines, Framebuffer.Ready, Display.RevScroll, Display.SetCursor;
      if y == fb.scrollTop {
        fb.RevScroll();
        fb.SetCursorPos(0, y);
      } else {
        fb.SetCursorPos(0, SizeSub(y, 1));
      }
    }

    /** `flanterm_context_reinit`. */
    method Reinitialise()
      requires Ready()
      modifies this, fb`cursorEnabled, fb`scrollEnabled, fb`scrollTop, fb`scrollBottom
      ensures Ready() && State() == Reinit(old(State())) && !parser.escape
    {
      hide *;
      ReadyFacts();
      Parts();
      ghost var t := State();
      ReinitIs(t);
      ResetShared();
      ResetParser();
      ResetStyle();
      ResetContext();
      Parts();
      MakeReady();
    }

    method ResetContext()
      requires |charsets| == 2
      modifies this`charsets, this`insertMode, this`savedCursorX, this`savedCursorY, this`onlcr, this`autoflush
      ensures charsets == [CHARSET_DEFAULT, CHARSET_DEC_SPECIAL]
      ensures !insertMode && savedCursorX == 0 && savedCursorY == 0 && onlcr && autoflush
    {
      autoflush := true;
      insertMode := false;
      charsets := charsets[0 := CHARSET_DEFAULT];
      charsets := charsets[1 := CHARSET_DEC_SPECIAL];
      savedCursorX := 0;
      savedCursorY := 0;
      onlcr := true;
    }

    method ResetStyle()
      modifies this`style
      ensures style == PLAIN
    {
      style := style.(bold := false, bgBold := false, reverseVideo := false);
      style := style.(charset := 0);
      style := style.(primary := None, background := None);
    }

    static lemma ReinitIs(t: Term)
      requires t.Valid()
      ensures |t.charsets| == 2
      ensures Reinit(t) == Term(t.display.(cursorEnabled := true, scrollEnabled := true, top := 0, bottom := t.display.rows),
        FreshParser(t.parser.codePoint), PLAIN, t.savedStyle,
        [CHARSET_DEFAULT, CHARSET_DEC_SPECIAL], false, 0, 0, true, true)
      ensures Reinit(t).Valid()
    {
    }

    /** The part of the reset that the backend reads. */
    method ResetShared()
      requires fb.Ready()
      modifies fb`cursorEnabled, fb`scrollEnabled, fb`scrollTop, fb`scrollBottom
      ensures fb.Ready()
      ensures fb.State() == old(fb.State()).(cursorEnabled := true, scrollEnabled := true, top := 0, bottom := old(fb.State()).rows)
    {
      hide Framebuffer.Lines, Framebuffer.Linked, Framebuffer.Drawn;
      fb.SetCursorEnabled(true);
      fb.SetScrollEnabled(true);
      fb.SetScrollMargins(0, fb.rows);
    }

    method ResetParser()
      modifies this`parser
      ensures |parser.values| == old(|parser.values|) && Live(parser) == FreshParser(old(parser.codePoint)) && !parser.escape
    {
      hide Zeros;
      parser := parser.(controlSequence := false, csi := false, escape := false, osc := false, oscEscape := false);
      parser := parser.(rrr := false, discardNext := false, decPrivate := false);
      parser := parser.(unicodeRemaining := 0, gSelect := 0);
      parser := parser.(escapeOffset := 0, count := 0);
    }

    method ResetTerminal()
      requires Ready()
      modifies this, fb, fb.queue, fb.map_
      ensures Ready() && State() == Reset(old(State())) && !parser.escape
    {
      hide *;
      ReadyFacts();
      ResetIs(State());
      Reinitialise();
      ReadyFacts();
      Parts();
      fb.Clear(true);
      Parts();
      MakeReady();
    }

    static lemma ResetIs(t: Term)
      requires t.Valid()
      ensures Reset(t) == Reinit(t).(display := Reinit(t).display.Clear(true)) && Reset(t).Valid() && Reset(t).parser.escape == false
    {
    }

    method Save()
      requires Ready()
      modifies this`savedStyle, fb`savedTextFg, fb`savedTextBg, fb`savedCursorX, fb`savedCursorY
      ensures Ready() && State() == EscapeFunction(old(State()), '7' as int)
    {
      hide *;
      ReadyFacts();
      Parts();
      EscapeIs(State(), '7' as int);
      fb.SaveState();
      savedStyle := savedStyle.(bold := style.bold, bgBold := style.bgBold, reverseVideo := style.reverseVideo);
      savedStyle := savedStyle.(charset := style.charset, primary := style.primary, background := style.background);
      Parts();
      MakeReady();
    }

    method Restore()
      requires Ready()
      modifies this`style, fb`textFg, fb`textBg, fb`cursorX, fb`cursorY
      ensures Ready() && State() == EscapeFunction(old(State()), '8' as int)
    {
      hide *;
      ReadyFacts();
      Parts();
      EscapeIs(State(), '8' as int);
      style := style.(bold := savedStyle.bold, bgBold := savedStyle.bgBold, reverseVideo := savedStyle.reverseVideo);
      style := style.(charset := savedStyle.charset, primary := savedStyle.primary, background := savedStyle.background);
      fb.RestoreState();
      Parts();
      MakeReady();
    }

    /** `ESC (` and `ESC )`: the next byte names the set for G0 or G1. */
    method SelectSet(c: u8)
      requires Ready()&& (c == '(' as int || c == ')' as int)
      modifies this`parser
      ensures Ready() && State() == EscapeFunction(old(State()), c)
    {
      hide *;
      ReadyFacts();
      Parts();
      ghost var t := State();
      EscapeIs(t, c);
      NameSet(c);
      Parts();
      WithParser(t, Live(parser));
      MakeReady();
    }

    method NameSet(c: u8)
      requires c == '(' as int || c == ')' as int
      requires Live(parser).Valid()
      modifies this`parser
      ensures Live(parser) == old(Live(parser)).(gSelect := c - '\'' as int)
      ensures |parser.values| == old(|parser.values|) && Live(parser).Valid()
    {
      hide Zeros;
      parser := parser.(gSelect := c - '\'' as int);
    }

    static lemma EscapeIs(t: Term, c: u8)
      requires t.Valid()
      ensures var d := t.display;
        var r := EscapeFunction(t, c);
        && r.Valid()
        && (c == '7' as int ==> r == t.(display := d.SaveState(), savedStyle := t.style))
        && (c == '8' as int ==> r == t.(display := d.RestoreState(), style := t.savedStyle))
        && (c == 'D' as int ==> r == t.(display := LineFeed(d, d.X())))
        && (c == 'E' as int ==> r == t.(display := LineFeed(d, 0)))
        && (c == 'M' as int ==> r == t.(display := ReverseLineFeed(d)))
        && (c == '(' as int || c == ')' as int ==> r == t.(parser := t.parser.(gSelect := c - '\'' as int)))
        && (c !in {'7' as int, '8' as int, 'D' as int, 'E' as int, 'M' as int, '(' as int, ')' as int} ==> r == t)
    {
      hide LineFeed, ReverseLineFeed, Display.SaveState, Display.RestoreState;
    }

    /** IND, NEL and RI. */
    method LineCommand(c: u8)
      requires Ready() && c in {'D' as int, 'E' as int, 'M' as int}
      modifies fb`queueI, fb`cursorX, fb`cursorY, fb.queue, fb.map_
      ensures Ready() && State() == EscapeFunction(old(State()), c)
    {
      hide *;
      ReadyFacts();
      Parts();
      EscapeIs(State(), c);
      var x, y := fb.GetCursorPos();
      if c == 'D' as int {
        IndexLine(x, y);
      } else if c == 'E' as int {
        IndexLine(0, y);
      } else {
        ReverseIndexLine(y);
      }
      Parts();
      MakeReady();
    }

    /** The two-byte escape sequences. */
    method EscapeCommand(c: u8)
      requires Ready()
      modifies this, fb, fb.queue, fb.map_
      ensures Ready() && State() == EscapeFunction(old(State()), c)
    {
      hide *;
      ReadyFacts();
      EscapeIs(State(), c);
      if c == '7' as int {
        Save();
      } else if c == '8' as int {
        Restore();
      } else if c == 'D' as int || c == 'E' as int || c == 'M' as int {
        LineCommand(c);
      } else if c == '(' as int || c == ')' as int {
        SelectSet(c);
      }
    }

    method LeaveEscape()
      requires Ready()
      modifies this`parser
      ensures Ready() && State() == Escaped(old(State()))
    {
      hide *;
      ReadyFacts();
      Parts();
      ghost var t := State();
      EscapedIs(t);
      ClearEscape();
      Parts();
      WithParser(t, Live(parser));
      MakeReady();
    }

    method ClearEscape()
      requires Live(parser).Valid()
      modifies this`parser
      ensures Live(parser) == old(Live(parser)).(escape := false)
      ensures |parser.values| == old(|parser.values|) && Live(parser).Valid()
    {
      hide Zeros;
      parser := parser.(escape := false);
    }

    static function Escaped(t: Term): (r: Term)
      requires t.Valid()
      ensures r.Valid()
    {
      t.(parser := t.parser.(escape := false))
    }

    method StartOsc()
      requires Ready()
      modifies this`parser
      ensures Ready() && State() == EscapeStart(old(State()), ']' as int)
    {
      hide *;
      ReadyFacts();
      Parts();
      ghost var t := State();
      EscapeStartIs(t, ']' as int);
      SetOsc();
      Parts();
      WithParser(t, Live(parser));
      MakeReady();
    }

    method SetOsc()
      requires Live(parser).Valid()
      modifies this`parser
      ensures Live(parser) == old(Live(parser)).(oscEscape := false, osc := true)
      ensures |parser.values| == old(|parser.values|) && Live(parser).Valid()
    {
      hide Zeros;
      parser := parser.(oscEscape := false);
      parser := parser.(osc := true);
    }

    static lemma EscapedIs(t: Term)
      requires t.Valid()
      ensures Escaped(t) == t.(parser := t.parser.(escape := false))
      ensures !t.parser.escape ==> Escaped(t) == t
    {
    }

    static lemma AdvancedIs(t: Term)
      requires t.Valid()
      ensures Advanced(t) == t.(parser := t.parser.(escapeOffset := t.parser.escapeOffset + 1))
    {
    }

    static lemma EscapeStartIs(t: Term, c: u8)
      requires t.Valid()
      ensures EscapeStart(t, c) ==
        if c == ']' as int then t.(parser := t.parser.(oscEscape := false, osc := true))
        else if c == '[' as int then t.(parser := OpenSequence(t.parser))
        else if c == 'c' as int then Reset(t)
        else EscapeFunction(Escaped(t), c)
      ensures !Reset(t).parser.escape
    {
      hide EscapeFunction, OpenSequence;
    }

    /** The byte after the start of an escape sequence. */
    method EscapeStartByte(c: u8)
      requires Ready()
      modifies this, fb, fb.queue, fb.map_
      ensures Ready() && State() == EscapeStart(old(State()), c)
    {
      hide *;
      ReadyFacts();
      EscapeStartIs(State(), c);
      if c == ']' as int {
        StartOsc();
      } else if c == '[' as int {
        OpenControlSequence();
      } else if c == 'c' as int {
        ResetTerminal();
        ReadyFacts();
        EscapedIs(State());
        LeaveEscape();
      } else {
        LeaveEscape();
        EscapeCommand(c);
      }
    }

    method CountByte()
      requires Ready()
      modifies this`parser
      ensures Ready() && State() == Advanced(old(State()))
    {
      hide *;
      ReadyFacts();
      Parts();
      ghost var t := State();
      AdvancedIs(t);
      Count();
      Parts();
      WithParser(t, Live(parser));
      MakeReady();
    }

    method Count()
      requires Live(parser).Valid()
      modifies this`parser
      ensures Live(parser) == old(Live(parser)).(escapeOffset := old(parser.escapeOffset) + 1)
      ensures |parser.values| == old(|parser.values|) && Live(parser).Valid()
    {
      hide Zeros;
      parser := parser.(escapeOffset := parser.escapeOffset + 1);
    }

    /** A byte inside an escape sequence. */
    method EscapeByte(c: u8)
      requires Ready()
      modifies this, fb, fb.queue, fb.map_
      ensures Ready() && State() == EscapeParse(tables, old(State()), c)
    {
      hide *;
      ReadyFacts();
      EscapeParseIs(tables, State(), c);
      CountByte();
      ReadyFacts();
      Parts();
      if parser.osc {
        OscByte(c);
      } else if parser.controlSequence {
        ControlSequenceParse(c);
      } else if parser.csi {
        LeaveCsi();
        ReadyFacts();
        OpenControlSequence();
      } else {
        EscapeStartByte(c);
      }
    }

    method LeaveCsi()
      requires Ready()
      modifies this`parser
      ensures Ready() && State() == old(State()).(parser := old(State()).parser.(csi := false))
    {
      hide *;
      ReadyFacts();
      Parts();
      ghost var t := State();
      ClearCsi();
      Parts();
      WithParser(t, Live(parser));
      MakeReady();
    }

    method ClearCsi()
      requires Live(parser).Valid()
      modifies this`parser
      ensures Live(parser) == old(Live(parser)).(csi := false)
      ensures |parser.values| == old(|parser.values|) && Live(parser).Valid()
    {
      hide Zeros;
      parser := parser.(csi := false);
    }

    static lemma EscapeParseIs(tb: Tables, t: Term, c: u8)
      requires t.Valid()
      ensures var u := Advanced(t);
        EscapeParse(tb, t, c) ==
        if u.parser.osc then u.(parser := OscParse(u.parser, c))
        else if u.parser.controlSequence then ControlSequence(tb, u, c)
        else if u.parser.csi then u.(parser := OpenSequence(u.parser.(csi := false)))
        else EscapeStart(u, c)
    {
      hide ControlSequence, EscapeStart, OscParse, OpenSequence;
    }

    /** CAN, SUB and discarded bytes. */
    method AbortSequence()
      requires Ready()
      modifies this`parser
      ensures Ready() && State() == old(State()).(parser := Abort(old(State()).parser))
    {
      hide *;
      ReadyFacts();
      Parts();
      ghost var t := State();
      AbortParser();
      Parts();
      WithParser(t, Live(parser));
      MakeReady();
    }

    method AbortParser()
      requires Live(parser).Valid()
      modifies this`parser
      ensures Live(parser) == Abort(old(Live(parser)))
      ensures |parser.values| == old(|parser.values|)
    {
      hide Zeros, Parser.Valid;
      parser := parser.(discardNext := false, escape := false, csi := false);
      parser := parser.(controlSequence := false, unicodeRemaining := 0);
      parser := parser.(osc := false, oscEscape := false, gSelect := 0);
    }

    /** The lead byte of a UTF-8 sequence. */
    method LeadByte(c: u8)
      requires Ready() && 0xc0 <= c <= 0xf7
      modifies this`parser
      ensures Ready() && State() == old(State()).(parser := Lead(old(State()).parser, c))
    {
      hide *;
      ReadyFacts();
      Parts();
      ghost var t := State();
      StartCodePoint(c);
      Parts();
      WithParser(t, Live(parser));
      MakeReady();
    }

    method StartCodePoint(c: u8)
      requires Live(parser).Valid() && 0xc0 <= c <= 0xf7
      modifies this`parser
      ensures Live(parser) == Lead(old(Live(parser)), c)
      ensures |parser.values| == old(|parser.values|)
    {
      hide Zeros, Parser.Valid;
      if c <= 0xdf {
        parser := parser.(unicodeRemaining := 1, codePoint := c % 0x20 * 0x40);
      } else if c <= 0xef {
        parser := parser.(unicodeRemaining := 2, codePoint := c % 0x10 * 0x1000);
      } else {
        parser := parser.(unicodeRemaining := 3, codePoint := c % 0x08 * 0x4_0000);
      }
    }

    method SetRemaining(n: nat)
      requires Ready() && n <= 3
      modifies this`parser
      ensures Ready() && State() == WithRemaining(old(State()), n)
    {
      hide *;
      ReadyFacts();
      Parts();
      ghost var t := State();
      WithRemainingIs(t, n);
      SetUnicodeRemaining(n);
      Parts();
      WithParser(t, Live(parser));
      MakeReady();
    }

    method SetUnicodeRemaining(n: nat)
      requires Live(parser).Valid() && n <= 3
      modifies this`parser
      ensures Live(parser) == old(Live(parser)).(unicodeRemaining := n) && Live(parser).Valid()
      ensures |parser.values| == old(|parser.values|)
    {
      hide Zeros;
      parser := parser.(unicodeRemaining := n);
    }

    static lemma WithRemainingIs(t: Term, n: nat)
      requires t.Valid() && n <= 3
      ensures WithRemaining(t, n) == t.(parser := t.parser.(unicodeRemaining := n))
    {
    }

    /** The six bits of a continuation byte, which has been counted. */
    method AddBits(c: u8)
      requires Ready() && State().parser.unicodeRemaining < 3
      modifies this`parser
      ensures Ready() && State() == WithBits(old(State()), c)
    {
      hide *;
      ReadyFacts();
      Parts();
      ghost var t := State();
      WithBitsIs(t, c);
      AddCodePointBits(c);
      Parts();
      WithParser(t, Live(parser));
      MakeReady();
    }

    method AddCodePointBits(c: u8)
      requires Live(parser).Valid() && parser.unicodeRemaining < 3
      modifies this`parser
      ensures Live(parser) == old(Live(parser)).(codePoint := Fill(old(parser.codePoint), SixBits(c), old(parser.unicodeRemaining))) && Live(parser).Valid()
      ensures |parser.values| == old(|parser.values|)
    {
      hide Zeros, Fill, SixBits;
      parser := parser.(codePoint := Fill(parser.codePoint, SixBits(c), parser.unicodeRemaining));
    }

    static lemma WithBitsIs(t: Term, c: u8)
      requires t.Valid() && t.parser.unicodeRemaining < 3
      ensures WithBits(t, c) == t.(parser := t.parser.(codePoint := Fill(t.parser.codePoint, SixBits(c), t.parser.unicodeRemaining)))
    {
      hide Fill, SixBits;
    }

    /** Prints a decoded code point, or a box as wide as it. */
    method EmitGlyph(codePoint: nat)
      requires Ready()
      modifies fb`queueI, fb`cursorX, fb`cursorY, fb.queue, fb.map_
      ensures Ready() && State() == Emit(tables, old(State()), codePoint)
    {
      hide *;
      ReadyFacts();
      Parts();
      EmitIs(tables, State(), codePoint);
      var cc := tables.cp437(codePoint);
      if cc == None {
        EmitBox(tables.width(codePoint));
      } else {
        fb.RawPutchar(cc.value);
      }
      Parts();
      MakeReady();
    }

    method EmitBox(replacementWidth: Width)
      requires fb.Ready() && fb.State().Valid() && fb.State().scrollEnabled
      modifies fb`queueI, fb`cursorX, fb`cursorY, fb.queue, fb.map_
      ensures fb.Ready() && fb.State() == Box(old(fb.State()), replacementWidth)
    {
      hide Framebuffer.Ready, Framebuffer.Lines, RawPuts, Display.RawPutchar;
      if replacementWidth > 0 {
        fb.RawPutchar(0xfe);
        PutBlanks(fb, replacementWidth - 1);
      }
    }

    static lemma EmitIs(tb: Tables, t: Term, codePoint: nat)
      requires t.Valid()
      ensures t.display.top < t.display.bottom
      ensures Emit(tb, t, codePoint) == t.(display :=
        if tb.cp437(codePoint).Some? then t.display.RawPutchar(tb.cp437(codePoint).value)
        else Box(t.display, tb.width(codePoint)))
      ensures Emit(tb, t, codePoint).Valid()
    {
      hide Display.RawPutchar, Box;
    }

    /** A continuation byte. */
    method ContinuationByte(c: u8)
      requires Ready() && parser.unicodeRemaining != 0
      modifies this`parser, fb`queueI, fb`cursorX, fb`cursorY, fb.queue, fb.map_
      ensures Ready() && State() == Continue(tables, old(State()), c)
    {
      hide *;
      ReadyFacts();
      Parts();
      ContinueIs(tables, State(), c);
      SetRemaining(parser.unicodeRemaining - 1);
      Parts();
      ReadyFacts();
      AddBits(c);
      Parts();
      if parser.unicodeRemaining != 0 {
        return;
      }
      EmitGlyph(parser.codePoint);
    }

    static lemma ContinueIs(tb: Tables, t: Term, c: u8)
      requires t.Valid() && t.parser.unicodeRemaining != 0
      ensures t.parser.unicodeRemaining <= 3
      ensures var u := WithRemaining(t, t.parser.unicodeRemaining - 1);
        && u.parser.unicodeRemaining < 3
        && Continue(tb, t, c) == if WithBits(u, c).parser.unicodeRemaining != 0 then WithBits(u, c)
                                 else Emit(tb, WithBits(u, c), WithBits(u, c).parser.codePoint)
    {
      WithRemainingIs(t, t.parser.unicodeRemaining - 1);
      WithBitsIs(WithRemaining(t, t.parser.unicodeRemaining - 1), c);
      hide Emit, WithRemaining, WithBits;
    }

    /** The byte after `ESC (` or `ESC )`. */
    method DesignateSet(c: u8)
      requires Ready() && parser.gSelect != 0
      modifies this`parser, this`charsets
      ensures Ready() && State() == Designate(old(State()), c)
    {
      hide *;
      ReadyFacts();
      Parts();
      DesignateIs(State(), c);
      NameCharset(parser.gSelect - 1, c);
      ClearSelect();
      Parts();
      MakeReady();
    }

    method NameCharset(g: nat, c: u8)
      requires g < |charsets|
      modifies this`charsets
      ensures charsets == Named(old(charsets), g, c)
    {
      if c == 'B' as int {
        charsets := charsets[g := CHARSET_DEFAULT];
      } else if c == '0' as int {
        charsets := charsets[g := CHARSET_DEC_SPECIAL];
      }
    }

    static function Named(charsets: seq<nat>, g: nat, c: u8): seq<nat>
      requires g < |charsets|
    {
      if c == 'B' as int then charsets[g := CHARSET_DEFAULT]
      else if c == '0' as int then charsets[g := CHARSET_DEC_SPECIAL] else charsets
    }

    method ClearSelect()
      modifies this`parser
      ensures Live(parser) == old(Live(parser)).(gSelect := 0) && |parser.values| == old(|parser.values|)
    {
      hide Zeros;
      parser := parser.(gSelect := 0);
    }

    static lemma DesignateIs(t: Term, c: u8)
      requires t.Valid() && t.parser.gSelect != 0
      ensures t.parser.gSelect <= 2 && |t.charsets| == 2
      ensures Designate(t, c) == t.(parser := t.parser.(gSelect := 0), charsets := Named(t.charsets, t.parser.gSelect - 1, c))
      ensures Designate(t, c).Valid()
    {
      var g := t.parser.gSelect - 1;
      assert t.charsets[g := t.charsets[g]] == t.charsets;
    }

    static lemma ControlIs(t: Term, c: u8)
      requires t.Valid() && IsControl(c)
      ensures var r, d := Control(t, c), t.display;
        && (c == 0x00 || c == 0x7f || c == 0x07 ==> r == t)
        && (c == 0x1b ==> r == t.(parser := t.parser.(escapeOffset := 0, escape := true)))
        && (c == 0x9b ==> r == t.(parser := t.parser.(csi := true, escapeOffset := 0, escape := true)))
        && (0x08 <= c <= 0x0d ==> r == t.(display := ControlMove(d, t.onlcr, c)))
        && (c == 0x0e ==> r == t.(style := t.style.(charset := 1)))
        && (c == 0x0f ==> r == t.(style := t.style.(charset := 0)))
      ensures Control(t, c).Valid()
    {
      hide Tab, LineFeed, Display.SetCursor;
    }

    /** ESC and the eight-bit CSI. */
    method StartEscape(c: u8)
      requires Ready() && (c == 0x1b || c == 0x9b)
      modifies this`parser
      ensures Ready() && State() == Control(old(State()), c)
    {
      hide *;
      ReadyFacts();
      Parts();
      ghost var t := State();
      CursorControls(c);
      ControlIs(t, c);
      EnterEscape(c);
      Parts();
      WithParser(t, Live(parser));
      MakeReady();
    }

    method EnterEscape(c: u8)
      requires Live(parser).Valid()
      modifies this`parser
      ensures Live(parser) == old(Live(parser)).(csi := c == 0x9b || old(parser.csi), escapeOffset := 0, escape := true)
      ensures |parser.values| == old(|parser.values|) && Live(parser).Valid()
    {
      hide Zeros;
      if c == 0x9b {
        parser := parser.(csi := true);
      }
      parser := parser.(escapeOffset := 0);
      parser := parser.(escape := true);
    }

    /** HT. */
    method TabStop(x: nat, y: nat)
      requires fb.Ready() && fb.State().Valid() && x == fb.State().X() && y == fb.State().Y()
      modifies fb`cursorX, fb`cursorY
      ensures fb.Ready() && fb.State() == Tab(old(fb.State()))
    {
      hide Framebuffer.Shape, Framebuffer.Lines, Framebuffer.Ready, Display.SetCursor;
      if x / 8 + 1 >= fb.cols {
        fb.SetCursorPos(fb.cols - 1, y);
        return;
      }
      fb.SetCursorPos((x / 8 + 1) * 8, y);
    }

    /** The control characters that move the cursor. */
    method CursorControl(c: u8)
      requires Ready() && 0x08 <= c <= 0x0d
      modifies fb`queueI, fb`cursorX, fb`cursorY, fb.queue, fb.map_
      ensures Ready() && State() == Control(old(State()), c)
    {
      hide *;
      ReadyFacts();
      Parts();
      CursorControls(c);
      ControlIs(State(), c);
      MoveByControl(c);
      Parts();
      MakeReady();
    }

    method MoveByControl(c: u8)
      requires fb.Ready() && fb.State().Valid() && 0x08 <= c <= 0x0d
      modifies fb`queueI, fb`cursorX, fb`cursorY, fb.queue, fb.map_
      ensures fb.Ready() && fb.State() == ControlMove(old(fb.State()), onlcr, c)
    {
      hide Framebuffer.Ready, Framebuffer.State, Tab, LineFeed, Display.SetCursor;
      var x, y := fb.GetCursorPos();
      if c == 0x09 {
        TabStop(x, y);
      } else if 0x0a <= c <= 0x0c {
        IndexLine(if onlcr then 0 else x, y);
      } else if c == 0x08 {
        fb.SetCursorPos(SizeSub(x, 1), y);
      } else {
        fb.SetCursorPos(0, y);
      }
    }

    static function ControlMove(d: Display, onlcr: bool, c: u8): Display
      requires d.Valid() && 0x08 <= c <= 0x0d
    {
      if c == 0x09 then Tab(d)
      else if 0x0a <= c <= 0x0c then LineFeed(d, if onlcr then 0 else d.X())
      else if c == 0x08 then d.SetCursor(SizeSub(d.X(), 1), d.Y())
      else d.SetCursor(0, d.Y())
    }

    static lemma CursorControls(c: u8)
      ensures (0x08 <= c <= 0x0d) || c == 0 || c == 7 || c == 0x0e || c == 0x0f || c == 0x1b || c == 0x7f || c == 0x9b <==> IsControl(c)
    {
    }

    /** SO and SI. */
    method ShiftSet(c: u8)
      requires Ready() && (c == 0x0e || c == 0x0f)
      modifies this`style
      ensures Ready() && State() == Control(old(State()), c)
    {
      hide *;
      ReadyFacts();
      Parts();
      CursorControls(c);
      ControlIs(State(), c);
      style := style.(charset := if c == 0x0e then 1 else 0);
      Parts();
      MakeReady();
    }

    method ControlByte(c: u8)
      requires Ready() && IsControl(c)
      modifies this`parser, this`style, fb`queueI, fb`cursorX, fb`cursorY, fb.queue, fb.map_
      ensures Ready() && State() == Control(old(State()), c)
    {
      hide *;
      ReadyFacts();
      CursorControls(c);
      ControlIs(State(), c);
      if c == 0x1b || c == 0x9b {
        StartEscape(c);
      } else if 0x08 <= c <= 0x0d {
        CursorControl(c);
      } else if c == 0x0e || c == 0x0f {
        ShiftSet(c);
      }
    }

    /** A printable byte. */
    method PrintByte(c: u8)
      requires Ready()
      modifies fb`queueI, fb`cursorX, fb`cursorY, fb.queue, fb.map_
      ensures Ready() && State() == Print(tables, old(State()), c)
    {
      hide *;
      ReadyFacts();
      Parts();
      PrintIs(tables, State(), c);
      if insertMode {
        ShiftRest();
      }
      PutPrintable(if charsets[style.charset] == CHARSET_DEC_SPECIAL then tables.special(c) else None, c);
      Parts();
      MakeReady();
    }

    method ShiftRest()
      requires fb.Ready()
      modifies fb`queueI, fb.queue, fb.map_
      ensures fb.Ready() && fb.State() == MakeRoom(old(fb.State()))
    {
      hide *;
      var x, y := fb.GetCursorPos();
      OpenCell(fb, x, y);
    }

    method PutPrintable(special: Option<u8>, c: u8)
      requires fb.Ready() && fb.State().Sized() && fb.State().top < fb.State().bottom
      requires fb.State().cx <= fb.State().cols && fb.State().scrollEnabled
      modifies fb`queueI, fb`cursorX, fb`cursorY, fb.queue, fb.map_
      ensures fb.Ready() && fb.State() == DrawPrintable(old(fb.State()), special, c)
    {
      hide Framebuffer.Ready, Framebuffer.Lines, Display.RawPutchar;
      if special.Some? {
        fb.RawPutchar(special.value);
      } else if 0x20 <= c <= 0x7e {
        fb.RawPutchar(c);
      }
    }

    static lemma PrintIs(tb: Tables, t: Term, c: u8)
      requires t.Valid()
      ensures t.style.charset < |t.charsets|
      ensures var d := if t.insertMode then MakeRoom(t.display) else t.display;
        var special := if t.charsets[t.style.charset] == CHARSET_DEC_SPECIAL then tb.special(c) else None;
        && d.Sized() && d.top < d.bottom && d.cx <= d.cols && d.scrollEnabled
        && Print(tb, t, c) == t.(display := DrawPrintable(d, special, c))
      ensures Print(tb, t, c).Valid()
    {
      hide MakeRoom, Display.RawPutchar;
    }

    /** A byte outside UTF-8 sequences. */
    method GroundByte(c: u8)
      requires Ready()
      modifies this, fb, fb.queue, fb.map_
      ensures Ready() && State() == Ground(tables, old(State()), c)
    {
      hide *;
      ReadyFacts();
      Parts();
      GroundIs(tables, State(), c);
      if 0xc0 <= c <= 0xf7 {
        LeadByte(c);
      } else if parser.escape {
        EscapeByte(c);
      } else if parser.gSelect != 0 {
        DesignateSet(c);
      } else if IsControl(c) {
        ControlByte(c);
      } else {
        PrintByte(c);
      }
    }

    static lemma GroundIs(tb: Tables, t: Term, c: u8)
      requires t.Valid()
      ensures t.parser.gSelect <= 2
      ensures Ground(tb, t, c) ==
        if 0xc0 <= c <= 0xf7 then t.(parser := Lead(t.parser, c))
        else if t.parser.escape then EscapeParse(tb, t, c)
        else if t.parser.gSelect != 0 then Designate(t, c)
        else if IsControl(c) then Control(t, c)
        else Print(tb, t, c)
    {
      hide Lead, EscapeParse, Designate, Control, Print;
    }

    /** `flanterm_putchar`. */
    method PutChar(c: u8)
      requires Ready()
      modifies this, fb, fb.queue, fb.map_
      ensures Ready() && State() == TerminalModel.PutChar(tables, old(State()), c)
    {
      hide *;
      ReadyFacts();
      Parts();
      PutCharIs(tables, State(), c);
      if parser.discardNext || c == 0x18 || c == 0x1a {
        AbortSequence();
        return;
      }
      if parser.unicodeRemaining != 0 {
        if IsContinuation(c) {
          ContinuationByte(c);
          return;
        }
        SetRemaining(0);
      }
      GroundByte(c);
    }

    static lemma PutCharIs(tb: Tables, t: Term, c: u8)
      requires t.Valid()
      ensures TerminalModel.PutChar(tb, t, c) ==
        if t.parser.discardNext || c == 0x18 || c == 0x1a then t.(parser := Abort(t.parser))
        else if t.parser.unicodeRemaining == 0 then Ground(tb, t, c)
        else if IsContinuation(c) then Continue(tb, t, c)
        else Ground(tb, WithRemaining(t, 0), c)
    {
      hide Abort, Continue, Ground, WithRemaining;
    }

    /** `flanterm_write`: the bytes are run through the machine, and the screen that results is drawn. With
        automatic flushing the picture is the one a from-scratch drawing of that screen leaves. */
    method Write(buf: seq<u8>)
      requires Ready()
      modifies this, fb, fb.framebuffer, fb.grid, fb.queue, fb.map_
      ensures Ready() && State() == Run(tables, old(State()), buf)
      ensures autoflush ==> fb.Redrawn() && fb.Shown()
    {
      hide *;
      ReadyFacts();
      ghost var t := State();
      var i := 0;
      RunStart(tables, t, buf);
      while i < |buf|
        invariant 0 <= i <= |buf|
        invariant Ready() && t.Valid() && State() == Run(tables, t, buf[..i])
      {
        RunStep(tables, t, buf, i);
        PutChar(buf[i]);
        i := i + 1;
      }
      if autoflush {
        ReadyFacts();
        Parts();
        fb.DoubleBufferFlush();
        Parts();
        MakeReady();
      }
    }

    static lemma RunStart(tb: Tables, t: Term, buf: seq<u8>)
      requires t.Valid()
      ensures Run(tb, t, buf[..0]) == t && buf[..|buf|] == buf
    {
    }

    static lemma RunStep(tb: Tables, t: Term, buf: seq<u8>, i: nat)
      requires t.Valid() && i < |buf|
      ensures Run(tb, t, buf[..i + 1]) == TerminalModel.PutChar(tb, Run(tb, t, buf[..i]), buf[i])
    {
      RunNext(tb, t, buf[..i], buf[i]);
      assert buf[..i] + [buf[i]] == buf[..i + 1];
    }
  }
}
