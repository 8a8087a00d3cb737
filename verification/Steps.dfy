/**
 Runs of the terminal over byte sequences, and which handler a byte reaches.
 */
module Steps {
  import opened Words
  import opened DisplayModel
  import opened TerminalModel

  /** The state after a whole byte sequence. */
  function Run(tb: Tables, t: Term, bytes: seq<u8>): (r: Term)
    requires t.Valid()
    ensures r.Valid() && t.display.Kept(r.display)
    decreases |bytes|
  {
    if bytes == [] then t else Run(tb, PutChar(tb, t, bytes[0]), bytes[1..])
  }

  /** A run over two byte sequences is one over their concatenation. */
  lemma {:induction false} RunAppend(tb: Tables, t: Term, a: seq<u8>, b: seq<u8>)
    requires t.Valid()
    ensures Run(tb, t, a + b) == Run(tb, Run(tb, t, a), b)
    decreases |a|
  {
    if a == [] {
      assert a + b == b;
    } else {
      assert (a + b)[0] == a[0] && (a + b)[1..] == a[1..] + b;
      RunAppend(tb, PutChar(tb, t, a[0]), a[1..], b);
    }
  }

  /** A run over no byte, and one from its first byte on. */
  lemma RunNothing(tb: Tables, t: Term)
    requires t.Valid()
    ensures Run(tb, t, []) == t
  {
  }

  lemma RunFirst(tb: Tables, t: Term, c: u8, b: seq<u8>)
    requires t.Valid()
    ensures Run(tb, t, [c] + b) == Run(tb, PutChar(tb, t, c), b)
  {
    hide PutChar;
    assert ([c] + b)[1..] == b;
  }

  /** A run with one more byte. */
  lemma RunNext(tb: Tables, t: Term, a: seq<u8>, c: u8)
    requires t.Valid()
    ensures Run(tb, t, a + [c]) == PutChar(tb, Run(tb, t, a), c)
  {
    hide PutChar;
    RunAppend(tb, t, a, [c]);
    assert [c][1..] == [];
  }

  /** The terminal after the byte count of an escape sequence has advanced. */
  function Advanced(t: Term): (r: Term)
    requires t.Valid()
    ensures r.Valid()
  {
    t.(parser := t.parser.(escapeOffset := t.parser.escapeOffset + 1))
  }

  /** Outside UTF-8 sequences, an ASCII byte other than CAN and SUB reaches exactly one handler. */
  lemma StepCases(tb: Tables, t: Term, c: u8)
    requires t.Valid() && t.parser.unicodeRemaining == 0 && !t.parser.discardNext
    requires c < 0x80 && c != 0x18 && c != 0x1a
    ensures var p := t.parser;
      PutChar(tb, t, c) ==
      if p.escape then
        if p.osc then Advanced(t).(parser := OscParse(Advanced(t).parser, c))
        else if p.controlSequence then ControlSequence(tb, Advanced(t), c)
        else if p.csi then Advanced(t).(parser := OpenSequence(Advanced(t).parser.(csi := false)))
        else EscapeStart(Advanced(t), c)
      else if p.gSelect != 0 then Designate(t, c)
      else if IsControl(c) then Control(t, c)
      else Print(tb, t, c)
  {
    var q := Advanced(t).parser;
    assert q.(csi := false).Valid();
    hide OscParse, ControlSequence, OpenSequence, EscapeStart, Designate, Control, Print, Lead, Continue, Parser.Valid, Display.Sized;
    assert PutChar(tb, t, c) == Ground(tb, t, c);
  }
}
