/**
 What the bytes of a control sequence do to the screen: ESC [, a parameter list and a final byte.
 */
module Sequences {
  import opened Words
  import opened DisplayModel
  import opened Editing
  import opened EditingForms
  import opened ControlForms
  import opened TerminalModel
  import opened Steps
  import opened Parameters
  import opened Commands
  import opened Pending
  import Arithmetic

  /** The bytes of a sequence. */
  function Sequence(vs: seq<nat>, c: u8): seq<u8> {
    [ESC, '[' as int] + Printed(vs) + [c]
  }

  /** The parameters that reach a final byte. */
  ghost predicate Reach(p: Parser, vs: seq<nat>, c: u8) {
    && p.Valid() && p.count == Arithmetic.Min(|vs|, 16)
    && forall i :: 0 <= i < 16 ==>
      p.values[i] == if i < |vs| then vs[i] % 0x1_0000_0000
                     else if c == 'J' as int || c == 'K' as int || c == 'q' as int then 0 else 1
  }

  /** A terminal in front of an action: scrolling is disabled. */
  function Before(t: Term, p: Parser): Term {
    t.(parser := p, display := t.display.(scrollEnabled := false))
  }

  /** A sequence that is read from the ground state ends there, and its action is that of its final byte. */
  lemma Acts(tb: Tables, t: Term, vs: seq<nat>, c: u8) returns (p: Parser)
    requires Grounded(t) && IsFinal(c)
    ensures Reach(p, vs, c) && t.Valid() && Before(t, p).Settled() && |p.values| == MAX_VALUES && p.count <= MAX_VALUES
    ensures var a, r := Dispatch(tb, Before(t, p), c), Run(tb, t, Sequence(vs, c));
      Grounded(r) && r == a.(parser := r.parser, display := a.display.(scrollEnabled := true))
  {
    hide *;
    var start := [ESC, '[' as int] + Printed(vs);
    GroundedIs(t);
    OutsideIs(t);
    RoundTrip(tb, t, vs, c);
    OpenedByEscape(tb, t);
    Introduced(tb, t);
    ListRead(tb, Open(t), Open(t), vs);
    RunAppend(tb, t, [ESC, '[' as int], Printed(vs));
    var u := Run(tb, t, start);
    StillOpen(t, u, Stored(vs));
    InSequenceParts(u);
    AdvancedIs(u);
    p := Finish(Advanced(u).parser, c);
    Reached(u, vs, c);
    InFront(t, u, p);
    Finishes(tb, t, u, c);
    RunNext(tb, t, start, c);
    BytesAre(vs, c);
  }

  lemma BytesAre(vs: seq<nat>, c: u8)
    ensures Sequence(vs, c) == [ESC, '[' as int] + Printed(vs) + [c]
  {
    hide Printed;
  }

  lemma StillOpen(t: Term, u: Term, g: Reading)
    requires Grounded(t) && Reads(Open(t), u, g)
    ensures u.parser.gSelect == 0 && !u.parser.csi
  {
  }

  lemma Reached(u: Term, vs: seq<nat>, c: u8)
    requires InSequence(u)
    requires var p := Finish(Advanced(u).parser, c);
      && p.count == Arithmetic.Min(|vs|, MAX_VALUES)
      && forall i :: 0 <= i < MAX_VALUES ==>
        p.values[i] == if i < |vs| then vs[i] % WORD_MODULUS
                       else if c == 'J' as int || c == 'K' as int || c == 'q' as int then 0 else 1
    ensures var p := Finish(Advanced(u).parser, c); Reach(p, vs, c) && |p.values| == MAX_VALUES && p.count <= MAX_VALUES
  {
    hide Display.Sized;
  }

  lemma InFront(t: Term, u: Term, p: Parser)
    requires t.Valid() && p.Valid()
    ensures Before(t, p).Settled() && |p.values| == MAX_VALUES && p.count <= MAX_VALUES
  {
  }

  lemma Finishes(tb: Tables, t: Term, u: Term, c: u8)
    requires Grounded(t) && InSequence(u) && u == t.(parser := u.parser) && !u.parser.decPrivate && u.parser.gSelect == 0 && !u.parser.csi
    requires var p := Finish(Advanced(u).parser, c);
      PutChar(tb, u, c) == Close(FinalByte(tb, Advanced(u).(parser := p), c))
    ensures var p := Finish(Advanced(u).parser, c);
      && Before(t, p).Settled() && |p.values| == MAX_VALUES && p.count <= MAX_VALUES
      && var a, r := Dispatch(tb, Before(t, p), c), PutChar(tb, u, c);
         Grounded(r) && r == a.(parser := r.parser, display := a.display.(scrollEnabled := true))
  {
    var p := Finish(Advanced(u).parser, c);
    InFront(t, u, p);
    assert Advanced(u).(parser := p) == t.(parser := p);
    assert p == u.parser.(escapeOffset := p.escapeOffset, rrr := false, count := p.count, values := p.values);
    hide Dispatch, PutChar, Display.Sized, Finish, Advanced, Parser.Valid;
    ActionIs(tb, t, p, c);
  }

  lemma ActionIs(tb: Tables, t: Term, p: Parser, c: u8)
    requires t.Valid() && p.Valid() && !p.decPrivate && t.(parser := p).Valid()
    ensures Before(t, p).Settled() && |p.values| == MAX_VALUES && p.count <= MAX_VALUES
    ensures var a := Dispatch(tb, Before(t, p), c);
      && FinalByte(tb, t.(parser := p), c) == a.(display := a.display.(scrollEnabled := true)) && a.parser == p
  {
    InFront(t, t, p);
    hide Dispatch, Display.Sized;
  }

  // ---- Moving the cursor

  predicate Motion(c: char) {
    'A' <= c <= 'H' || c == 'a' || c == 'd' || c == 'e' || c == 'f' || c == '`'
  }

  /** Where a motion leads; `(x, y)` is where the cursor is seen, `n` and `m` are the parameters. */
  function Goal(d: Display, n: u32, m: u32, c: char, x: int, y: int): (int, int) {
    match c
    case 'A' => (x, Arithmetic.Max(y - n, if y >= d.top then d.top else 0))
    case 'F' => (0, Arithmetic.Max(y - n, if y >= d.top then d.top else 0))
    case 'B' | 'e' => (x, Below(d, n, y))
    case 'E' => (0, Below(d, n, y))
    case 'C' | 'a' => (Arithmetic.Min(x + n, d.cols - 1), y)
    case 'D' => (Arithmetic.Max(x - n, 0), y)
    case 'd' => (x, if n == 0 then d.rows - 1 else Arithmetic.Min(n, d.rows) - 1)
    case 'G' | '`' => (if n == 0 then d.cols - 1 else Arithmetic.Min(n, d.cols) - 1, y)
    case _ => (Arithmetic.Max(Arithmetic.Min(m, d.cols) - 1, 0), Arithmetic.Max(Arithmetic.Min(n, d.rows) - 1, 0))
  }

  function Below(d: Display, n: u32, y: int): int {
    if y < d.bottom then Arithmetic.Min(y + n, d.bottom - 1)
    else if y == d.bottom then d.bottom - 1
    else Arithmetic.Min(y + n, d.rows - 1)
  }

  lemma SeenAt(d: Display)
    requires d.Sized()
    ensures d.X() == Arithmetic.Min(d.cx, d.cols - 1) && d.Y() == Arithmetic.Min(d.cy, d.rows - 1)
  {
  }

  lemma SetIs(d: Display, x: nat, y: nat)
    requires d.Sized() && x < d.cols && y < d.rows
    ensures d.SetCursor(x, y) == d.(cx := x, cy := y)
  {
  }

  lemma MotionByte(d: Display, n: u32, m: u32, c: u8)
    requires d.Valid() && Motion(c as char)
    ensures MovesCursor(c) && MoveCursor(d, n, m, c) == match c as char
      case 'A' => CursorUp(d, n, d.X())
      case 'F' => CursorUp(d, n, 0)
      case 'B' | 'e' => CursorDown(d, n, d.X())
      case 'E' => CursorDown(d, n, 0)
      case 'C' | 'a' => CursorForward(d, n)
      case 'D' => CursorBack(d, n)
      case 'd' => d.SetCursor(d.X(), OneBased(n, d.rows))
      case 'G' | '`' => d.SetCursor(OneBased(n, d.cols), d.Y())
      case _ => d.SetCursor(Position(m, d.cols), Position(n, d.rows))
  {
    hide CursorUp, CursorDown, CursorForward, CursorBack, OneBased, Position, Display.SetCursor, Display.X, Display.Y, Display.Sized;
  }

  lemma DisplayIs(d: Display)
    requires d.Valid()
    ensures d.Sized() && 1 <= d.cols < 0x8000_0000 && 1 <= d.rows < 0x8000_0000 && d.top < d.bottom <= d.rows
  {
  }

  lemma MoveIs(d: Display, n: u32, m: u32, c: u8)
    requires d.Valid() && Motion(c as char)
    ensures var x, y := Arithmetic.Min(d.cx, d.cols - 1), Arithmetic.Min(d.cy, d.rows - 1);
      var (gx, gy) := Goal(d, n, m, c as char, x, y);
      gx >= 0 && gy >= 0 && MovesCursor(c) && MoveCursor(d, n, m, c) == d.(cx := gx, cy := gy)
  {
    hide *;
    DisplayIs(d);
    SeenAt(d);
    MotionByte(d, n, m, c);
    MotionIs(c as char);
    match c as char
    case 'A' | 'F' =>
      CursorUpForm(d, n, 0);
      CursorUpForm(d, n, d.X());
      GoalUp(d, n, m, c as char, d.X(), d.Y());
    case 'B' | 'e' | 'E' =>
      CursorDownForm(d, n, 0);
      CursorDownForm(d, n, d.X());
      GoalDown(d, n, m, c as char, d.X(), d.Y());
    case 'C' | 'a' | 'D' =>
      CursorForwardForm(d, n);
      GoalAcross(d, n, m, c as char, d.X(), d.Y());
    case _ =>
      PositionsReached(n, d.cols);
      PositionsReached(n, d.rows);
      PositionsReached(m, d.cols);
      SetIs(d, d.X(), OneBased(n, d.rows));
      SetIs(d, OneBased(n, d.cols), d.Y());
      SetIs(d, Position(m, d.cols), Position(n, d.rows));
      GoalTo(d, n, m, c as char, d.X(), d.Y());
  }

  lemma MotionIs(c: char)
    requires Motion(c)
    ensures c == 'A' || c == 'B' || c == 'C' || c == 'D' || c == 'E' || c == 'F' || c == 'G' || c == 'H'
      || c == 'a' || c == 'd' || c == 'e' || c == 'f' || c == '`'
  {
  }

  lemma GoalUp(d: Display, n: u32, m: u32, c: char, x: nat, y: nat)
    requires c == 'A' || c == 'F'
    ensures Goal(d, n, m, c, x, y) == (if c == 'A' then x else 0, Arithmetic.Max(y - n, if y >= d.top then d.top else 0))
    ensures Goal(d, n, m, c, x, y).1 >= 0
  {
  }

  lemma GoalDown(d: Display, n: u32, m: u32, c: char, x: nat, y: nat)
    requires (c == 'B' || c == 'e' || c == 'E') && d.bottom >= 1 && d.rows >= 1
    ensures Goal(d, n, m, c, x, y) == (if c == 'E' then 0 else x,
      if y < d.bottom then Arithmetic.Min(y + n, d.bottom - 1) else if y == d.bottom then d.bottom - 1 else Arithmetic.Min(y + n, d.rows - 1))
    ensures Goal(d, n, m, c, x, y).1 >= 0
  {
  }

  lemma GoalAcross(d: Display, n: u32, m: u32, c: char, x: nat, y: nat)
    requires (c == 'C' || c == 'a' || c == 'D') && d.cols >= 1
    ensures Goal(d, n, m, c, x, y) == (if c == 'D' then Arithmetic.Max(x - n, 0) else Arithmetic.Min(x + n, d.cols - 1), y)
    ensures Goal(d, n, m, c, x, y).0 >= 0
  {
  }

  lemma GoalTo(d: Display, n: u32, m: u32, c: char, x: nat, y: nat)
    requires (c == 'd' || c == 'G' || c == '`' || c == 'H' || c == 'f') && 1 <= d.cols < 0x8000_0000 && 1 <= d.rows < 0x8000_0000
    ensures Goal(d, n, m, c, x, y) == match c
      case 'd' => (x, OneBased(n, d.rows))
      case 'G' | '`' => (OneBased(n, d.cols), y)
      case _ => (Position(m, d.cols), Position(n, d.rows))
  {
    PositionsReached(n, d.cols);
    PositionsReached(n, d.rows);
    PositionsReached(m, d.cols);
    hide OneBased, Position;
  }

  lemma DispatchMoves(tb: Tables, t: Term, c: u8)
    requires t.Settled() && |t.parser.values| == MAX_VALUES && t.parser.count <= MAX_VALUES && MovesCursor(c)
    ensures Dispatch(tb, t, c) == t.(display := MoveCursor(t.display, t.parser.values[0], t.parser.values[1], c))
  {
    hide MoveCursor, Display.Sized;
  }

  lemma MotionFinal(c: u8)
    requires Motion(c as char)
    ensures IsFinal(c) && c != 'J' as int && c != 'K' as int && c != 'q' as int
  {
  }

  /** CUU, CUD, CUF, CUB, CNL, CPL, CHA, CUP, HPR, VPA, VPR, HVP and HPA, from the bytes on: the cursor moves as far as
      the first parameter says, or to where the parameters say, and not off the screen. */
  lemma Moves(tb: Tables, t: Term, vs: seq<nat>, c: u8, n: u32, m: u32, x: nat, y: nat)
    requires Grounded(t) && Motion(c as char)
    requires n == (if |vs| < 1 then 1 else vs[0] % 0x1_0000_0000) && m == if |vs| < 2 then 1 else vs[1] % 0x1_0000_0000
    requires x == Arithmetic.Min(t.display.cx, t.display.cols - 1) && y == Arithmetic.Min(t.display.cy, t.display.rows - 1)
    ensures var r, d := Run(tb, t, Sequence(vs, c)), t.display;
      && Grounded(r) && r == t.(parser := r.parser, display := d.(cx := r.display.cx, cy := r.display.cy))
      && (r.display.cx, r.display.cy) == match c as char
        case 'A' => (x, Arithmetic.Max(y - n, if y >= d.top then d.top else 0))
        case 'F' => (0, Arithmetic.Max(y - n, if y >= d.top then d.top else 0))
        case 'B' | 'e' => (x, Below(d, n, y))
        case 'E' => (0, Below(d, n, y))
        case 'C' | 'a' => (Arithmetic.Min(x + n, d.cols - 1), y)
        case 'D' => (Arithmetic.Max(x - n, 0), y)
        case 'd' => (x, if n == 0 then d.rows - 1 else Arithmetic.Min(n, d.rows) - 1)
        case 'G' | '`' => (if n == 0 then d.cols - 1 else Arithmetic.Min(n, d.cols) - 1, y)
        case _ => (Arithmetic.Max(Arithmetic.Min(m, d.cols) - 1, 0), Arithmetic.Max(Arithmetic.Min(n, d.rows) - 1, 0))
  {
    hide *;
    GroundedIs(t);
    OutsideIs(t);
    MotionFinal(c);
    var p := Acts(tb, t, vs, c);
    FirstTwo(p, vs, c);
    BeforeIs(t, p);
    MoveIs(Before(t, p).display, n, m, c);
    DispatchMoves(tb, Before(t, p), c);
    GoalIs(t.display, Before(t, p).display, n, m, c as char, x, y);
  }

  lemma BeforeIs(t: Term, p: Parser)
    requires t.Valid()
    ensures Before(t, p) == t.(parser := p, display := t.display.(scrollEnabled := false)) && t.display.scrollEnabled
    ensures Before(t, p).display.Valid() && t.display.Valid()
  {
  }

  lemma FirstTwo(p: Parser, vs: seq<nat>, c: u8)
    requires Reach(p, vs, c) && |p.values| == MAX_VALUES && c != 'J' as int && c != 'K' as int && c != 'q' as int
    ensures p.values[0] == (if |vs| < 1 then 1 else vs[0] % 0x1_0000_0000) && p.values[1] == if |vs| < 2 then 1 else vs[1] % 0x1_0000_0000
  {
  }

  lemma GoalIs(d: Display, e: Display, n: u32, m: u32, c: char, x: int, y: int)
    requires e == d.(scrollEnabled := e.scrollEnabled)
    ensures Goal(e, n, m, c, x, y) == match c
        case 'A' => (x, Arithmetic.Max(y - n, if y >= d.top then d.top else 0))
        case 'F' => (0, Arithmetic.Max(y - n, if y >= d.top then d.top else 0))
        case 'B' | 'e' => (x, Below(d, n, y))
        case 'E' => (0, Below(d, n, y))
        case 'C' | 'a' => (Arithmetic.Min(x + n, d.cols - 1), y)
        case 'D' => (Arithmetic.Max(x - n, 0), y)
        case 'd' => (x, if n == 0 then d.rows - 1 else Arithmetic.Min(n, d.rows) - 1)
        case 'G' | '`' => (if n == 0 then d.cols - 1 else Arithmetic.Min(n, d.cols) - 1, y)
        case _ => (Arithmetic.Max(Arithmetic.Min(m, d.cols) - 1, 0), Arithmetic.Max(Arithmetic.Min(n, d.rows) - 1, 0))
  {
  }

  // ---- Editing the screen

  predicate Editor(c: char) {
    c == 'L' || c == 'M' || c == 'J' || c == '@' || c == 'P' || c == 'X' || c == 'K' || c == 'r'
  }

  lemma EditByte(d: Display, n: u32, m: u32, count: nat, c: u8)
    requires d.Valid() && Editor(c as char)
    ensures !MovesCursor(c) && Edit(d, n, m, count, c) == match c as char
      case 'L' => InsertLines(d, n)
      case 'M' => DeleteLines(d, n)
      case 'J' => EraseDisplay(d, n)
      case '@' => InsertCharacters(d, n)
      case 'P' => DeleteCharacters(d, n)
      case 'X' => EraseCharacters(d, n)
      case 'K' => EraseLine(d, n)
      case _ => SetMargins(d, count, n, m)
  {
    hide InsertLines, DeleteLines, EraseDisplay, InsertCharacters, DeleteCharacters, EraseCharacters, EraseLine, SetMargins, Display.Sized;
  }

  lemma DispatchEdits(tb: Tables, t: Term, c: u8)
    requires t.Settled() && |t.parser.values| == MAX_VALUES && t.parser.count <= MAX_VALUES && Editor(c as char)
    ensures t.display.Valid()
    ensures Dispatch(tb, t, c) == t.(display := Edit(t.display, t.parser.values[0], t.parser.values[1], t.parser.count, c))
  {
    hide MoveCursor, Edit, Display.Sized;
  }

  lemma EditFinal(c: u8)
    requires Editor(c as char)
    ensures IsFinal(c) && c != 'q' as int && (c == 'J' as int <==> c as char == 'J') && (c == 'K' as int <==> c as char == 'K')
  {
  }

  lemma FirstOf(p: Parser, vs: seq<nat>, c: u8)
    requires Reach(p, vs, c) && |p.values| == MAX_VALUES
    ensures p.values[0] == if |vs| >= 1 then vs[0] % 0x1_0000_0000 else if c as char == 'J' || c as char == 'K' || c as char == 'q' then 0 else 1
    ensures p.values[1] == if |vs| >= 2 then vs[1] % 0x1_0000_0000 else if c as char == 'J' || c as char == 'K' || c as char == 'q' then 0 else 1
    ensures p.count == Arithmetic.Min(|vs|, 16)
  {
  }

  /** IL, DL, ED, ICH, DCH, ECH, EL and DECSTBM, from the bytes on: the editing function that the final byte stands for,
      with scrolling disabled. */
  lemma Edits(tb: Tables, t: Term, vs: seq<nat>, c: u8, n: u32, m: u32, d: Display)
    requires Grounded(t) && Editor(c as char) && d == t.display.(scrollEnabled := false)
    requires n == if |vs| >= 1 then vs[0] % 0x1_0000_0000 else if c as char == 'J' || c as char == 'K' then 0 else 1
    requires m == if |vs| >= 2 then vs[1] % 0x1_0000_0000 else if c as char == 'J' || c as char == 'K' then 0 else 1
    ensures var r := Run(tb, t, Sequence(vs, c));
      && Grounded(r) && r == t.(parser := r.parser, display := r.display) && d.Valid()
      && r.display == (match c as char
        case 'L' => InsertLines(d, n)
        case 'M' => DeleteLines(d, n)
        case 'J' => EraseDisplay(d, n)
        case '@' => InsertCharacters(d, n)
        case 'P' => DeleteCharacters(d, n)
        case 'X' => EraseCharacters(d, n)
        case 'K' => EraseLine(d, n)
        case _ => SetMargins(d, Arithmetic.Min(|vs|, 16), n, m)).(scrollEnabled := true)
  {
    hide *;
    GroundedIs(t);
    OutsideIs(t);
    EditFinal(c);
    var p := Acts(tb, t, vs, c);
    FirstOf(p, vs, c);
    BeforeIs(t, p);
    DisplayIs(d);
    DispatchEdits(tb, Before(t, p), c);
    EditByte(d, n, m, p.count, c);
  }

  // ---- Cell by cell

  lemma EditorsAre()
    ensures Editor('L') && Editor('M') && Editor('J') && Editor('@') && Editor('P') && Editor('X') && Editor('K') && Editor('r')
    ensures ('L' as int) as char == 'L' && ('M' as int) as char == 'M' && ('J' as int) as char == 'J' && ('@' as int) as char == '@'
    ensures ('P' as int) as char == 'P' && ('X' as int) as char == 'X' && ('K' as int) as char == 'K' && ('r' as int) as char == 'r'
  {
  }

  /** The screen in front of an edit. */
  lemma DisplaysAre(t: Term)
    requires t.Valid()
    ensures var d := t.display; d.Valid() && d.scrollEnabled && d.Sized() && d.top < d.bottom
    ensures var d := t.display.(scrollEnabled := false);
      && d.Valid() && d.Sized() && 1 <= d.cols < 0x8000_0000 && 1 <= d.rows < 0x8000_0000 && d.top < d.bottom <= d.rows
      && |d.lines| == d.rows && (forall i :: 0 <= i < d.rows ==> |d.lines[i]| == d.cols)
      && d.X() == Arithmetic.Min(d.cx, d.cols - 1) && d.Y() == Arithmetic.Min(d.cy, d.rows - 1)
  {
  }

  /** IL opens `n` lines at the cursor row, and the ones from there on move down to the bottom of the region; below it,
      the cursor row is blanked. */
  lemma LinesInserted(tb: Tables, t: Term, vs: seq<nat>, n: u32, x: nat, y: nat, j: nat, i: nat)
    requires Grounded(t) && n == (if vs == [] then 1 else vs[0] % 0x1_0000_0000) && j < t.display.cols && i < t.display.rows
    requires x == Arithmetic.Min(t.display.cx, t.display.cols - 1) && y == Arithmetic.Min(t.display.cy, t.display.rows - 1)
    ensures var r, d := Run(tb, t, Sequence(vs, 'L' as int)), t.display;
      && Grounded(r) && r == t.(parser := r.parser, display := d.(lines := r.display.lines))
      && r.display.lines[i][j] == if y >= d.bottom then (if i == y && n > 0 then Cell(0x20, d.fg, d.bg) else d.lines[i][j])
           else if y <= i < d.bottom then (if i < y + n then Cell(0x20, d.fg, d.bg) else d.lines[i - n][j]) else d.lines[i][j]
  {
    hide *;
    GroundedIs(t);
    OutsideIs(t);
    var d := t.display.(scrollEnabled := false);
    EditorsAre();
    Edits(tb, t, vs, 'L' as int, n, if |vs| >= 2 then vs[1] % 0x1_0000_0000 else 1, d);
    DisplaysAre(t);
    InsertedCells(d, n, i, j);
  }

  lemma InsertedCells(d: Display, n: nat, i: nat, j: nat)
    requires d.Valid() && i < d.rows && j < d.cols
    ensures InsertLines(d, n) == d.(lines := InsertLines(d, n).lines)
    ensures InsertLines(d, n).lines[i][j]
      == if d.Y() >= d.bottom then (if i == d.Y() && n > 0 then Cell(0x20, d.fg, d.bg) else d.lines[i][j])
         else if d.Y() <= i < d.bottom then (if i < d.Y() + n then Cell(0x20, d.fg, d.bg) else d.lines[i - n][j]) else d.lines[i][j]
  {
    hide InsertLines;
    if d.Y() >= d.bottom {
      InsertLinesBelow(d, n);
    } else {
      InsertLinesForm(d, n);
      InsertedAt(d, d.Y(), Arithmetic.Min(n, d.bottom - d.Y()), i);
    }
    hide Inserted;
  }

  lemma InsertedAt(d: Display, y: nat, k: nat, i: nat)
    requires d.Sized() && y + k <= d.bottom && i < d.rows
    ensures |Inserted(d, y, k)| == d.rows
    ensures Inserted(d, y, k)[i] == if i < y || i >= d.bottom then d.lines[i] else if i < y + k then d.BlankLine() else d.lines[i - k]
  {
    hide Display.BlankLine;
  }

  /** DL scrolls the whole region up by `n` lines, wherever the cursor is. */
  lemma LinesScrolled(tb: Tables, t: Term, vs: seq<nat>, n: u32, x: nat, y: nat, j: nat, i: nat)
    requires Grounded(t) && n == (if vs == [] then 1 else vs[0] % 0x1_0000_0000) && j < t.display.cols && i < t.display.rows
    requires x == Arithmetic.Min(t.display.cx, t.display.cols - 1) && y == Arithmetic.Min(t.display.cy, t.display.rows - 1)
    ensures var r, d := Run(tb, t, Sequence(vs, 'M' as int)), t.display;
      && Grounded(r) && r == t.(parser := r.parser, display := d.(lines := r.display.lines))
      && r.display.lines[i][j] == if d.top <= i < d.bottom then (if i + n < d.bottom then d.lines[i + n][j] else Cell(0x20, d.fg, d.bg)) else d.lines[i][j]
  {
    hide *;
    GroundedIs(t);
    OutsideIs(t);
    var d := t.display.(scrollEnabled := false);
    EditorsAre();
    Edits(tb, t, vs, 'M' as int, n, if |vs| >= 2 then vs[1] % 0x1_0000_0000 else 1, d);
    DisplaysAre(t);
    DeletedCells(d, n, i, j);
  }

  lemma DeletedCells(d: Display, n: nat, i: nat, j: nat)
    requires d.Valid() && i < d.rows && j < d.cols
    ensures DeleteLines(d, n) == d.(lines := DeleteLines(d, n).lines)
    ensures DeleteLines(d, n).lines[i][j]
      == if d.top <= i < d.bottom then (if i + n < d.bottom then d.lines[i + n][j] else Cell(0x20, d.fg, d.bg)) else d.lines[i][j]
  {
    ScrollsForm(d, n);
    hide Scrolls;
  }

  /** ICH shifts the rest of the line right by `n`; without a number of characters it erases it. */
  lemma CharactersShifted(tb: Tables, t: Term, vs: seq<nat>, n: u32, x: nat, y: nat, j: nat, i: nat)
    requires Grounded(t) && n == (if vs == [] then 1 else vs[0] % 0x1_0000_0000) && j < t.display.cols && i < t.display.rows
    requires x == Arithmetic.Min(t.display.cx, t.display.cols - 1) && y == Arithmetic.Min(t.display.cy, t.display.rows - 1)
    ensures var r, d := Run(tb, t, Sequence(vs, '@' as int)), t.display;
      && Grounded(r) && r == t.(parser := r.parser, display := d.(lines := r.display.lines, cx := x, cy := y))
      && r.display.lines[i][j] == if i == y && j >= x then (if n == 0 || j < x + n then Cell(0x20, d.fg, d.bg) else d.lines[y][j - n]) else d.lines[i][j]
  {
    hide *;
    GroundedIs(t);
    OutsideIs(t);
    var d := t.display.(scrollEnabled := false);
    EditorsAre();
    Edits(tb, t, vs, '@' as int, n, if |vs| >= 2 then vs[1] % 0x1_0000_0000 else 1, d);
    DisplaysAre(t);
    GapOpened(d, n, i, j);
  }

  lemma GapOpened(d: Display, n: nat, i: nat, j: nat)
    requires d.Sized() && i < d.rows && j < d.cols
    ensures var x, y := d.X(), d.Y();
      && InsertCharacters(d, n) == d.(lines := InsertCharacters(d, n).lines, cx := x, cy := y)
      && InsertCharacters(d, n).lines[i][j]
         == if i == y && j >= x then (if n == 0 || j < x + n then Cell(0x20, d.fg, d.bg) else d.lines[y][j - n]) else d.lines[i][j]
  {
  }

  /** DCH closes the gap of `n` characters when they are on the line. */
  lemma CharactersClosed(tb: Tables, t: Term, vs: seq<nat>, n: u32, x: nat, y: nat, j: nat, i: nat)
    requires Grounded(t) && n == (if vs == [] then 1 else vs[0] % 0x1_0000_0000) && j < t.display.cols && i < t.display.rows
    requires x == Arithmetic.Min(t.display.cx, t.display.cols - 1) && y == Arithmetic.Min(t.display.cy, t.display.rows - 1)
    requires n <= t.display.cols - x
    ensures var r, d := Run(tb, t, Sequence(vs, 'P' as int)), t.display;
      && Grounded(r) && r == t.(parser := r.parser, display := d.(lines := r.display.lines, cx := x, cy := y))
      && r.display.lines[i][j] == if i == y && j >= x then (if j + n < d.cols then d.lines[y][j + n] else Cell(0x20, d.fg, d.bg)) else d.lines[i][j]
  {
    hide *;
    GroundedIs(t);
    OutsideIs(t);
    var d := t.display.(scrollEnabled := false);
    EditorsAre();
    Edits(tb, t, vs, 'P' as int, n, if |vs| >= 2 then vs[1] % 0x1_0000_0000 else 1, d);
    DisplaysAre(t);
    GapGone(d, n, i, j);
  }

  lemma GapGone(d: Display, n: nat, i: nat, j: nat)
    requires d.Valid() && i < d.rows && j < d.cols && n <= d.cols - d.X()
    ensures var x, y := d.X(), d.Y();
      && DeleteCharacters(d, n) == d.(lines := DeleteCharacters(d, n).lines, cx := x, cy := y)
      && DeleteCharacters(d, n).lines[i][j]
         == if i == y && j >= x then (if j + n < d.cols then d.lines[y][j + n] else Cell(0x20, d.fg, d.bg)) else d.lines[i][j]
  {
    hide *;
    DisplayIs(d);
    DeleteFits(d, n);
    DeletedAt(d, n, i, j);
  }

  lemma DeletedAt(d: Display, n: nat, i: nat, j: nat)
    requires d.Sized() && i < d.rows && j < d.cols && n <= d.cols - d.X()
    ensures |Deleted(d, n).lines| == d.rows && |Deleted(d, n).lines[i]| == d.cols
    ensures var x, y := d.X(), d.Y();
      && Deleted(d, n) == d.(lines := Deleted(d, n).lines, cx := x, cy := y)
      && Deleted(d, n).lines[i][j]
         == if i == y && j >= x then (if j + n < d.cols then d.lines[y][j + n] else Cell(0x20, d.fg, d.bg)) else d.lines[i][j]
  {
    var x, y := d.X(), d.Y();
    hide Display.X, Display.Y;
    if i != y {
      assert Deleted(d, n).lines[i] == d.lines[i];
    }
  }

  /** ECH blanks `n` characters when they are on the line. */
  lemma CharactersBlanked(tb: Tables, t: Term, vs: seq<nat>, n: u32, x: nat, y: nat, j: nat, i: nat)
    requires Grounded(t) && n == (if vs == [] then 1 else vs[0] % 0x1_0000_0000) && j < t.display.cols && i < t.display.rows
    requires x == Arithmetic.Min(t.display.cx, t.display.cols - 1) && y == Arithmetic.Min(t.display.cy, t.display.rows - 1)
    requires t.display.cx + n <= t.display.cols && t.display.cy < t.display.rows
    ensures var r, d := Run(tb, t, Sequence(vs, 'X' as int)), t.display;
      && Grounded(r) && r == t.(parser := r.parser, display := d.(lines := r.display.lines, cx := x, cy := y))
      && r.display.lines[i][j] == if i == y && x <= j < x + n then Cell(0x20, d.fg, d.bg) else d.lines[i][j]
  {
    hide *;
    GroundedIs(t);
    OutsideIs(t);
    var d := t.display.(scrollEnabled := false);
    EditorsAre();
    Edits(tb, t, vs, 'X' as int, n, if |vs| >= 2 then vs[1] % 0x1_0000_0000 else 1, d);
    DisplaysAre(t);
    BlankedCells(d, n, i, j);
  }

  lemma BlankedCells(d: Display, n: nat, i: nat, j: nat)
    requires d.Valid() && i < d.rows && j < d.cols && d.cx + n <= d.cols && d.cy < d.rows
    ensures var x, y := d.X(), d.Y();
      && EraseCharacters(d, n) == d.(lines := EraseCharacters(d, n).lines, cx := x, cy := y)
      && EraseCharacters(d, n).lines[i][j] == if i == y && x <= j < x + n then Cell(0x20, d.fg, d.bg) else d.lines[i][j]
  {
    EraseCharactersFits(d, n);
    hide EraseCharacters;
  }

  /** EL blanks the line from the cursor on, before the cursor, or as a whole. */
  lemma LineBlanked(tb: Tables, t: Term, vs: seq<nat>, n: u32, x: nat, y: nat, j: nat, i: nat)
    requires Grounded(t) && n == (if vs == [] then 0 else vs[0] % 0x1_0000_0000) && j < t.display.cols && i < t.display.rows
    requires x == Arithmetic.Min(t.display.cx, t.display.cols - 1) && y == Arithmetic.Min(t.display.cy, t.display.rows - 1)
    requires n <= 2 && (n == 0 ==> t.display.cx < t.display.cols && t.display.cy < t.display.rows)
    ensures var r, d := Run(tb, t, Sequence(vs, 'K' as int)), t.display;
      && Grounded(r) && r == t.(parser := r.parser, display := d.(lines := r.display.lines, cx := x, cy := y))
      && r.display.lines[i][j] == if i == y && (n == 2 || if n == 0 then j >= x else j < x) then Cell(0x20, d.fg, d.bg) else d.lines[i][j]
  {
    hide *;
    GroundedIs(t);
    OutsideIs(t);
    var d := t.display.(scrollEnabled := false);
    EditorsAre();
    Edits(tb, t, vs, 'K' as int, n, if |vs| >= 2 then vs[1] % 0x1_0000_0000 else 0, d);
    DisplaysAre(t);
    LineCells(d, n, i, j);
  }

  lemma LineCells(d: Display, n: nat, i: nat, j: nat)
    requires d.Valid() && i < d.rows && j < d.cols && n <= 2 && (n == 0 ==> d.cx < d.cols && d.cy < d.rows)
    ensures var x, y := d.X(), d.Y();
      && EraseLine(d, n) == d.(lines := EraseLine(d, n).lines, cx := x, cy := y)
      && EraseLine(d, n).lines[i][j] == if i == y && (n == 2 || if n == 0 then j >= x else j < x) then Cell(0x20, d.fg, d.bg) else d.lines[i][j]
  {
    if n == 0 {
      EraseLineRight(d);
    } else if n == 1 {
      EraseLineStart(d);
    } else {
      EraseLineWhole(d);
    }
    hide EraseLine;
  }

  /** ED blanks the screen from the cursor on, up to the cursor, or as a whole; the first two where wrapping reaches
      every cell. */
  lemma ScreenBlanked(tb: Tables, t: Term, vs: seq<nat>, n: u32, x: nat, y: nat, j: nat, i: nat)
    requires Grounded(t) && n == (if vs == [] then 0 else vs[0] % 0x1_0000_0000) && j < t.display.cols && i < t.display.rows
    requires x == Arithmetic.Min(t.display.cx, t.display.cols - 1) && y == Arithmetic.Min(t.display.cy, t.display.rows - 1)
    requires n <= 3
    requires n == 0 ==> t.display.cx < t.display.cols && t.display.cy < t.display.rows
    requires n == 0 ==> y == t.display.rows - 1 || (t.display.bottom == t.display.rows && t.display.rows <= t.display.cols)
    requires n == 1 ==> y < t.display.bottom && y < t.display.cols
    ensures var r, d := Run(tb, t, Sequence(vs, 'J' as int)), t.display;
      && Grounded(r) && r == t.(parser := r.parser, display := d.(lines := r.display.lines, cx := if n <= 1 then x else d.cx, cy := if n <= 1 then y else d.cy))
      && r.display.lines[i][j] == if n >= 2 || if n == 0 then i > y || (i == y && j >= x) else i < y || (i == y && j <= x) then Cell(0x20, d.fg, d.bg) else d.lines[i][j]
  {
    hide *;
    GroundedIs(t);
    OutsideIs(t);
    var d := t.display.(scrollEnabled := false);
    EditorsAre();
    Edits(tb, t, vs, 'J' as int, n, if |vs| >= 2 then vs[1] % 0x1_0000_0000 else 0, d);
    DisplaysAre(t);
    ScreenCells(d, n, i, j);
  }

  lemma ScreenCells(d: Display, n: nat, i: nat, j: nat)
    requires d.Valid() && !d.scrollEnabled && i < d.rows && j < d.cols && n <= 3
    requires n == 0 ==> d.cx < d.cols && d.cy < d.rows && (d.Y() == d.rows - 1 || (d.bottom == d.rows && d.rows <= d.cols))
    requires n == 1 ==> d.Y() < d.bottom && d.Y() < d.cols
    ensures var x, y := d.X(), d.Y();
      && EraseDisplay(d, n) == d.(lines := EraseDisplay(d, n).lines, cx := if n <= 1 then x else d.cx, cy := if n <= 1 then y else d.cy)
      && EraseDisplay(d, n).lines[i][j]
         == if n >= 2 || if n == 0 then i > y || (i == y && j >= x) else i < y || (i == y && j <= x) then Cell(0x20, d.fg, d.bg) else d.lines[i][j]
  {
    if n == 0 {
      ErasesBelow(d);
      hide EraseDisplay;
    } else if n == 1 {
      ErasesAboveWhenReached(d);
      hide EraseDisplay;
    }
  }

  /** DECSTBM sets the region to its parameters, or to the whole screen if they leave less than two rows of it, and the
      cursor goes home. */
  lemma RegionSet(tb: Tables, t: Term, vs: seq<nat>, n: u32, m: u32)
    requires Grounded(t)
    requires n == (if |vs| < 1 then 1 else vs[0] % 0x1_0000_0000) && m == if |vs| < 2 then 1 else vs[1] % 0x1_0000_0000
    ensures var r, d := Run(tb, t, Sequence(vs, 'r' as int)), t.display;
      var from, last := Arithmetic.Max(n, 1), if |vs| < 2 then d.rows else m;
      var given := if |vs| < 2 then from < d.rows else from < last <= d.rows;
      && Grounded(r)
      && r == t.(parser := r.parser, display := d.(cx := 0, cy := 0, top := if given then from - 1 else 0, bottom := if given then last else d.rows))
  {
    hide *;
    GroundedIs(t);
    OutsideIs(t);
    var d := t.display.(scrollEnabled := false);
    EditorsAre();
    Edits(tb, t, vs, 'r' as int, n, m, d);
    DisplaysAre(t);
    RegionIs(d, vs, n, m);
  }

  lemma RegionIs(d: Display, vs: seq<nat>, n: u32, m: u32)
    requires d.Valid() && n == if |vs| < 1 then 1 else vs[0] % 0x1_0000_0000
    ensures var from, last := Arithmetic.Max(n, 1), if |vs| < 2 then d.rows else m;
      var given := if |vs| < 2 then from < d.rows else from < last <= d.rows;
      SetMargins(d, Arithmetic.Min(|vs|, 16), n, m)
      == d.(cx := 0, cy := 0, top := if given then from - 1 else 0, bottom := if given then last else d.rows)
  {
    MarginsForm(d, Arithmetic.Min(|vs|, 16), n, m);
    hide SetMargins;
  }

  // ---- The other final bytes

  lemma DispatchOther(tb: Tables, t: Term, c: u8)
    requires t.Settled() && |t.parser.values| == MAX_VALUES && t.parser.count <= MAX_VALUES
    requires !Motion(c as char) && !Editor(c as char) && c as char != 'm'
    ensures t.display.Sized()
    ensures Dispatch(tb, t, c) == match c as char
      case 's' => t.(savedX := t.display.X(), savedY := t.display.Y())
      case 'u' => t.(display := t.display.SetCursor(t.savedX, t.savedY))
      case 'h' | 'l' => if t.parser.count != 0 && t.parser.values[0] == 4 then t.(insertMode := c as char == 'h') else t
      case _ => t
  {
    hide Display.SetCursor, Display.X, Display.Y, Display.Sized;
  }

  /** SCOSC notes where the cursor is seen, SCORC puts it there, parameter 4 of SM and RM switches insert mode, and every
      other final byte does nothing. */
  lemma Others(tb: Tables, t: Term, vs: seq<nat>, c: u8, x: nat, y: nat)
    requires Grounded(t) && IsFinal(c) && !Motion(c as char) && !Editor(c as char) && c as char != 'm'
    requires x == Arithmetic.Min(t.display.cx, t.display.cols - 1) && y == Arithmetic.Min(t.display.cy, t.display.rows - 1)
    ensures var r, d := Run(tb, t, Sequence(vs, c)), t.display;
      && Grounded(r) && r == match c as char
        case 's' => t.(parser := r.parser, savedX := x, savedY := y)
        case 'u' => t.(parser := r.parser, display := d.(cx := t.savedX, cy := t.savedY))
        case 'h' | 'l' => t.(parser := r.parser,
            insertMode := if vs != [] && vs[0] % 0x1_0000_0000 == 4 then c as char == 'h' else t.insertMode)
        case _ => t.(parser := r.parser)
  {
    hide *;
    GroundedIs(t);
    OutsideIs(t);
    var p := Acts(tb, t, vs, c);
    FirstOf(p, vs, c);
    BeforeIs(t, p);
    DisplayIs(Before(t, p).display);
    SeenAt(Before(t, p).display);
    DispatchOther(tb, Before(t, p), c);
    SavedIn(t);
    SetIs(Before(t, p).display, t.savedX, t.savedY);
    CountIs(vs);
  }

  lemma CountIs(vs: seq<nat>)
    ensures Arithmetic.Min(|vs|, 16) != 0 <==> vs != []
  {
  }

  lemma SavedIn(t: Term)
    requires t.Valid()
    ensures t.savedX < t.display.cols && t.savedY < t.display.rows
  {
  }
}
