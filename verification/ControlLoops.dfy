/**
 The loops of the control functions, over the framebuffer backend: cell moves and runs of blanks that
 add up to the line edits of `Editing`.
 */
module ControlLoops {
  import opened Words
  import opened DisplayModel
  import opened Pending
  import opened Editing
  import opened FramebufferBackend
  import Arithmetic

  /** `n` blanks. */
  method PutBlanks(fb: Framebuffer, n: nat)
    requires fb.Ready() && fb.scrollTop < fb.scrollBottom
    modifies fb`queueI, fb`cursorX, fb`cursorY, fb.queue, fb.map_
    ensures fb.Ready() && fb.State() == RawPuts(old(fb.State()), SPACE, n)
  {
    hide Framebuffer.Ready, Framebuffer.Shape, Display.RawPutchar, Framebuffer.Lines;
    ghost var d := fb.State();
    var i := 0;
    while i < n
      invariant 0 <= i <= n
      invariant fb.Ready() && RawPuts(fb.State(), SPACE, n - i) == RawPuts(d, SPACE, n)
    {
      fb.RawPutchar(SPACE);
      i := i + 1;
    }
  }

  method ScrollTimes(fb: Framebuffer, n: nat)
    requires fb.Ready() && fb.scrollTop < fb.scrollBottom
    modifies fb`queueI, fb.queue, fb.map_
    ensures fb.Ready() && fb.State() == Scrolls(old(fb.State()), n)
  {
    hide Framebuffer.Ready, Framebuffer.Shape, Display.Scroll, Framebuffer.Lines;
    ghost var d := fb.State();
    var i := 0;
    while i < n
      invariant 0 <= i <= n
      invariant fb.Ready() && Scrolls(fb.State(), n - i) == Scrolls(d, n)
    {
      fb.Scroll();
      i := i + 1;
    }
  }

  method RevScrollTimes(fb: Framebuffer, n: nat)
    requires fb.Ready() && fb.scrollBottom >= 1
    modifies fb`queueI, fb.queue, fb.map_
    ensures fb.Ready() && fb.State() == RevScrolls(old(fb.State()), n)
  {
    hide Framebuffer.Ready, Framebuffer.Shape, Display.RevScroll, Framebuffer.Lines;
    ghost var d := fb.State();
    var i := 0;
    while i < n
      invariant 0 <= i <= n
      invariant fb.Ready() && RevScrolls(fb.State(), n - i) == RevScrolls(d, n)
    {
      fb.RevScroll();
      i := i + 1;
    }
  }

  /** A line while ICH is about to move cell `i`: the cells after it have moved or are blank. */
  function Opening(line: seq<Cell>, i: int, n: nat, blank: Cell): (r: seq<Cell>)
    ensures |r| == |line|
  {
    seq(|line|, j requires 0 <= j < |line| =>
      if j <= i then line[j] else if n >= 1 && j >= n && i < j - n then line[j - n] else blank)
  }

  /** A display with one line replaced and the cursor anywhere. */
  function WithLine(d: Display, y: nat, line: seq<Cell>, cx: nat, cy: nat): (r: Display)
    requires d.Sized() && y < d.rows && |line| == d.cols
    ensures r.Sized() && r.cx == cx && r.cy == cy
  {
    d.(lines := d.lines[y := line], cx := cx, cy := cy)
  }

  lemma OpeningEnds(d: Display, y: nat, x: nat, n: nat)
    requires d.Sized() && x < d.cols && y < d.rows
    ensures |d.lines| == d.rows && |d.lines[y]| == d.cols
    ensures WithLine(d, y, Opening(d.lines[y], d.cols - 1, n, d.Blank()), d.cx, d.cy) == d
    ensures Opening(d.lines[y], x - 1, n, d.Blank()) == OpenGap(d.lines[y], x, n, d.Blank())
  {
    OpeningLine(d.lines[y], x, n, d.Blank());
    hide Opening, OpenGap;
  }

  lemma OpeningLine(line: seq<Cell>, x: nat, n: nat, blank: Cell)
    requires x < |line|
    ensures Opening(line, |line| - 1, n, blank) == line
    ensures Opening(line, x - 1, n, blank) == OpenGap(line, x, n, blank)
  {
  }

  lemma OpeningStep(d: Display, y: nat, i: nat, n: nat, cx: nat, cy: nat)
    requires d.Sized() && d.top < d.bottom && y < d.rows && i < d.cols
    ensures WithLine(d, y, Opening(d.lines[y], i, n, d.Blank()), cx, cy).Sized()
    ensures WithLine(d, y, Opening(d.lines[y], i, n, d.Blank()), cx, cy).MoveCharacter(i + n, y, i, y).SetCursor(i, y).RawPutchar(SPACE)
         == WithLine(d, y, Opening(d.lines[y], i - 1, n, d.Blank()), i + 1, y)
  {
    var line := d.lines[y];
    var a := Opening(line, i, n, d.Blank());
    var b := if i + n < d.cols then a[i + n := a[i]] else a;
    assert WithLine(d, y, a, cx, cy).MoveCharacter(i + n, y, i, y) == WithLine(d, y, b, cx, cy);
    assert b[i := d.Blank()] == Opening(line, i - 1, n, d.Blank());
    hide Opening;
  }

  /** The ICH loop. It counts down to the cursor column and leaves when it is done. */
  method OpenLine(fb: Framebuffer, x: nat, y: nat, n: nat)
    requires fb.Ready() && fb.scrollTop < fb.scrollBottom && x < fb.cols && y < fb.rows
    modifies fb`queueI, fb`cursorX, fb`cursorY, fb.queue, fb.map_
    ensures fb.Ready()
    ensures var d := old(fb.State());
      fb.State() == WithLine(d, y, OpenGap(d.lines[y], x, n, d.Blank()), fb.cursorX, fb.cursorY)
  {
    hide *;
    fb.Parts();
    ghost var d := fb.State();
    OpeningEnds(d, y, x, n);
    var i := fb.cols - 1;
    while true
      invariant x <= i < fb.cols && fb.Ready()
      invariant fb.State() == WithLine(d, y, Opening(d.lines[y], i, n, d.Blank()), fb.cursorX, fb.cursorY)
      decreases i
    {
      fb.Parts();
      OpeningStep(d, y, i, n, fb.cursorX, fb.cursorY);
      fb.MoveCharacter(i + n, y, i, y);
      fb.SetCursorPos(i, y);
      fb.RawPutchar(SPACE);
      fb.Parts();
      if i == x {
        break;
      }
      i := i - 1;
    }
  }

  /** ICH. */
  method InsertBlanks(fb: Framebuffer, n: nat)
    requires fb.Ready() && fb.scrollTop < fb.scrollBottom
    modifies fb`queueI, fb`cursorX, fb`cursorY, fb.queue, fb.map_
    ensures fb.Ready() && fb.State() == InsertCharacters(old(fb.State()), n)
  {
    hide Framebuffer.Ready, Framebuffer.Shape, Framebuffer.Lines, OpenGap;
    var x, y := fb.GetCursorPos();
    OpenLine(fb, x, y, n);
    fb.SetCursorPos(x, y);
  }

  /** A line while DCH is about to move cell `i`. */
  function Closing(line: seq<Cell>, x: nat, n: nat, i: nat): (r: seq<Cell>)
    ensures |r| == |line|
  {
    seq(|line|, j requires 0 <= j < |line| => if x <= j < i - n && j + n < |line| then line[j + n] else line[j])
  }

  lemma ClosingEnds(d: Display, y: nat, x: nat, n: nat)
    requires d.Sized() && x < d.cols && y < d.rows
    ensures |d.lines| == d.rows && |d.lines[y]| == d.cols
    ensures WithLine(d, y, Closing(d.lines[y], x, n, x + n), d.cx, d.cy) == d
    ensures x + n <= d.cols ==> Closing(d.lines[y], x, n, d.cols) == CloseGap(d.lines[y], x, n)
    ensures x + n > d.cols ==> CloseGap(d.lines[y], x, n) == Closing(d.lines[y], x, n, x + n)
  {
    ClosingLine(d.lines[y], x, n);
    hide Closing, CloseGap;
  }

  lemma ClosingLine(line: seq<Cell>, x: nat, n: nat)
    requires x < |line|
    ensures Closing(line, x, n, x + n) == line
    ensures x + n <= |line| ==> Closing(line, x, n, |line|) == CloseGap(line, x, n)
    ensures x + n > |line| ==> CloseGap(line, x, n) == line
  {
  }

  lemma ClosingStep(d: Display, y: nat, x: nat, n: nat, i: nat)
    requires d.Sized() && y < d.rows && x + n <= i < d.cols
    ensures WithLine(d, y, Closing(d.lines[y], x, n, i), d.cx, d.cy).MoveCharacter(i - n, y, i, y)
         == WithLine(d, y, Closing(d.lines[y], x, n, i + 1), d.cx, d.cy)
  {
    var a := Closing(d.lines[y], x, n, i);
    assert a[i - n := a[i]] == Closing(d.lines[y], x, n, i + 1);
    hide Closing;
  }

  /** The moves of DCH. */
  method CloseLine(fb: Framebuffer, x: nat, y: nat, n: nat)
    requires fb.Ready() && x < fb.cols && y < fb.rows
    modifies fb`queueI, fb.queue, fb.map_
    ensures fb.Ready()
    ensures var d := old(fb.State()); fb.State() == WithLine(d, y, CloseGap(d.lines[y], x, n), d.cx, d.cy)
  {
    hide *;
    fb.Parts();
    ghost var d := fb.State();
    ClosingEnds(d, y, x, n);
    var i := x + n;
    while i < fb.cols
      invariant x + n <= i && (i <= fb.cols || i == x + n)
      invariant fb.Ready() && fb.State() == WithLine(d, y, Closing(d.lines[y], x, n, i), d.cx, d.cy)
    {
      ClosingStep(d, y, x, n, i);
      fb.MoveCharacter(i - n, y, i, y);
      i := i + 1;
    }
  }

  /** DCH. */
  method DeleteCells(fb: Framebuffer, n: nat)
    requires fb.Ready() && fb.scrollTop < fb.scrollBottom
    modifies fb`queueI, fb`cursorX, fb`cursorY, fb.queue, fb.map_
    ensures fb.Ready() && fb.State() == DeleteCharacters(old(fb.State()), n)
  {
    hide Framebuffer.Ready, Framebuffer.Shape, Framebuffer.Lines, CloseGap, RawPuts, AsInt32;
    var x, y := fb.GetCursorPos();
    CloseLine(fb, x, y, n);
    fb.SetCursorPos(SizeSub(fb.cols, n), y);
    PutBlanks(fb, n);
    fb.SetCursorPos(x, y);
  }

  /** ECH. */
  method EraseCells(fb: Framebuffer, n: nat)
    requires fb.Ready() && fb.scrollTop < fb.scrollBottom
    modifies fb`queueI, fb`cursorX, fb`cursorY, fb.queue, fb.map_
    ensures fb.Ready() && fb.State() == EraseCharacters(old(fb.State()), n)
  {
    hide Framebuffer.Ready, Framebuffer.Shape, Framebuffer.Lines, RawPuts;
    var x, y := fb.GetCursorPos();
    PutBlanks(fb, n);
    fb.SetCursorPos(x, y);
  }

  /** A line while the insert mode is about to move cell `i`. */
  function Shifting(line: seq<Cell>, i: int): (r: seq<Cell>)
    ensures |r| == |line|
  {
    seq(|line|, j requires 0 <= j < |line| => if j >= 1 && i < j - 1 then line[j - 1] else line[j])
  }

  lemma ShiftingEnds(d: Display, y: nat, x: nat)
    requires d.Sized() && x < d.cols && y < d.rows
    ensures |d.lines| == d.rows && |d.lines[y]| == d.cols
    ensures WithLine(d, y, Shifting(d.lines[y], d.cols - 1), d.cx, d.cy) == d
    ensures x == d.X() && y == d.Y() ==> WithLine(d, y, Shifting(d.lines[y], x - 1), d.cx, d.cy) == MakeRoom(d)
  {
    assert Shifting(d.lines[y], d.cols - 1) == d.lines[y];
    assert Shifting(d.lines[y], x - 1) == ShiftRight(d.lines[y], x);
  }

  lemma ShiftingStep(d: Display, y: nat, i: nat)
    requires d.Sized() && y < d.rows && i < d.cols
    ensures WithLine(d, y, Shifting(d.lines[y], i), d.cx, d.cy).MoveCharacter(i + 1, y, i, y)
         == WithLine(d, y, Shifting(d.lines[y], i - 1), d.cx, d.cy)
  {
    var a := Shifting(d.lines[y], i);
    assert (if i + 1 < d.cols then a[i + 1 := a[i]] else a) == Shifting(d.lines[y], i - 1);
    hide Shifting;
  }

  /** Makes room for one character in insert mode. */
  method OpenCell(fb: Framebuffer, x: nat, y: nat)
    requires fb.Ready() && x == fb.State().X() && y == fb.State().Y()
    modifies fb`queueI, fb.queue, fb.map_
    ensures fb.Ready() && fb.State() == MakeRoom(old(fb.State()))
  {
    hide *;
    fb.Parts();
    ghost var d := fb.State();
    ShiftingEnds(d, y, x);
    var i := fb.cols - 1;
    while true
      invariant x <= i < fb.cols
      invariant fb.Ready() && fb.State() == WithLine(d, y, Shifting(d.lines[y], i), d.cx, d.cy)
      decreases i
    {
      ShiftingStep(d, y, i);
      fb.MoveCharacter(i + 1, y, i, y);
      if i == x {
        break;
      }
      i := i - 1;
    }
  }

  /** The nested loops of ED 1: blanks from the top left corner through the cursor. */
  method EraseAbove(fb: Framebuffer, x: nat, y: nat)
    requires fb.Ready() && fb.scrollTop < fb.scrollBottom && x == fb.State().X() && y == fb.State().Y()
    modifies fb`queueI, fb`cursorX, fb`cursorY, fb.queue, fb.map_
    ensures fb.Ready() && fb.State() == EraseDisplay(old(fb.State()), 1)
  {
    hide *;
    fb.Parts();
    EraseAboveIs(fb.State());
    fb.SetCursorPos(0, 0);
    ghost var d := fb.State();
    fb.Parts();
    var b := false;
    var yc := 0;
    while yc < fb.rows && !b
      invariant fb.Ready() && 0 <= yc <= fb.rows && (!b ==> yc <= y)
      invariant fb.State() == if b then RawPuts(d, SPACE, Index(x, y, d.cols) + 1).SetCursor(x, y)
                              else RawPuts(d, SPACE, Index(0, yc, d.cols))
      decreases fb.rows - yc, !b
    {
      var xc := 0;
      while xc < fb.cols && !b
        invariant fb.Ready() && 0 <= xc <= fb.cols && (!b && yc == y ==> xc <= x)
        invariant fb.State() == if b then RawPuts(d, SPACE, Index(x, y, d.cols) + 1).SetCursor(x, y)
                                else RawPuts(d, SPACE, Index(xc, yc, d.cols))
        decreases fb.cols - xc, !b
      {
        fb.Parts();
        NextPut(d, xc, yc, d.cols);
        fb.RawPutchar(SPACE);
        if xc == x && yc == y {
          fb.SetCursorPos(x, y);
          b := true;
        } else {
          xc := xc + 1;
        }
      }
      if !b {
        NextLine(fb.cols, yc);
        yc := yc + 1;
      }
    }
  }

  lemma EraseAboveIs(d: Display)
    requires d.Sized() && d.top < d.bottom
    ensures var e := d.SetCursor(0, 0);
      && e.Sized() && e.top == d.top && e.bottom == d.bottom && e.cols == d.cols && e.rows == d.rows
      && RawPuts(e, SPACE, Index(0, 0, d.cols)) == e
      && EraseDisplay(d, 1) == RawPuts(e, SPACE, Index(d.X(), d.Y(), d.cols) + 1).SetCursor(d.X(), d.Y())
    ensures d.X() < d.cols && d.Y() < d.rows
  {
    FirstIndex(d.cols);
    hide Index;
  }

  lemma FirstIndex(cols: nat)
    ensures Index(0, 0, cols) == 0
  {
  }

  lemma NextLine(cols: nat, y: nat)
    ensures Index(cols, y, cols) == Index(0, y + 1, cols)
  {
    Arithmetic.MulStep(cols, y);
  }

  lemma {:induction false} PutsThenPut(d: Display, c: u8, n: nat)
    requires d.Sized() && d.top < d.bottom
    ensures RawPuts(d, c, n + 1) == RawPuts(d, c, n).RawPutchar(c)
    decreases n
  {
    if n > 0 {
      PutsThenPut(d.RawPutchar(c), c, n - 1);
    }
  }

  lemma NextPut(d: Display, x: nat, y: nat, cols: nat)
    requires d.Sized() && d.top < d.bottom
    ensures RawPuts(d, SPACE, Index(x, y, cols)).RawPutchar(SPACE) == RawPuts(d, SPACE, Index(x + 1, y, cols))
    ensures Index(x + 1, y, cols) == Index(x, y, cols) + 1
  {
    PutsThenPut(d, SPACE, Index(x, y, cols));
  }
}
