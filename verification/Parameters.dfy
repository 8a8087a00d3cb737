/**
 Parameters of control sequences: decimal numbers joined by semicolons (section 5.4 of ECMA-48) reach
 the final byte as the numbers that were printed.
 */
module Parameters {
  import opened Words
  import Arithmetic
  import opened DisplayModel
  import opened TerminalModel
  import opened Steps

  const SEMICOLON: u8 := ';' as int
  const ESC: u8 := 0x1b

  /** A number in decimal, most significant digit first. */
  function Decimal(n: nat): (bytes: seq<u8>)
    ensures |bytes| >= 1 && forall i :: 0 <= i < |bytes| ==> '0' as int <= bytes[i] <= '9' as int
  {
    (if n < 10 then [] else Decimal(n / 10)) + ['0' as int + n % 10]
  }

  /** A parameter list. */
  function Printed(vs: seq<nat>): seq<u8> {
    if vs == [] then []
    else if |vs| == 1 then Decimal(vs[0])
    else Printed(vs[..|vs| - 1]) + [SEMICOLON] + Decimal(vs[|vs| - 1])
  }

  /** The parser is inside a control sequence. */
  ghost predicate InSequence(t: Term) {
    && t.Valid() && t.parser.escape && t.parser.controlSequence && !t.parser.osc
    && t.parser.unicodeRemaining == 0 && !t.parser.discardNext && t.parser.escapeOffset >= 1
  }

  /** The parameters read so far. */
  datatype Reading = Reading(values: seq<u32>, count: nat, rrr: bool) {
    ghost predicate Valid() {
      |values| == MAX_VALUES && count <= MAX_VALUES && (rrr ==> count < MAX_VALUES)
    }

    /** A number may start: the next parameter is zero. */
    ghost predicate Ready() {
      Valid() && !rrr && (count < MAX_VALUES ==> values[count] == 0)
    }

    /** After one more digit. */
    function Digit(d: nat): (r: Reading)
      ensures Valid() ==> r.Valid()
    {
      if count >= |values| then this
      else Reading(values[count := (values[count] * 10 % WORD_MODULUS + d) % WORD_MODULUS], count, true)
    }

    /** After a whole number. Numbers past the last parameter are ignored. */
    function Number(n: nat): (r: Reading)
      ensures Valid() ==> r.Valid()
    {
      if count >= |values| then this else Reading(values[count := n % WORD_MODULUS], count, true)
    }

    /** After a semicolon that ends a number. */
    function Next(): (r: Reading)
      ensures Valid() ==> r.Valid()
    {
      if rrr then Reading(values, count + 1, false) else this
    }
  }

  /** `u` is the terminal `t` further on in its control sequence, with the parameters read so far. */
  ghost predicate Reads(t: Term, u: Term, g: Reading) {
    && InSequence(u) && g.Valid()
    && u == t.(parser := t.parser.(escapeOffset := u.parser.escapeOffset, values := g.values, count := g.count, rrr := g.rrr))
  }

  /** Inside a control sequence a digit or a semicolon only changes the parser. */
  lemma ParameterByte(tb: Tables, u: Term, c: u8)
    requires InSequence(u) && ('0' as int <= c <= '9' as int || c == SEMICOLON)
    ensures var p := u.parser.(escapeOffset := u.parser.escapeOffset + 1);
      && p.Valid() && p.controlSequence && !IsFinalByte(p, c)
      && PutChar(tb, u, c) == u.(parser := Parameter(p, c)) && u.(parser := Parameter(p, c)).Valid()
  {
    hide *;
    InSequenceParts(u);
    AdvancedIs(u);
    ParameterBytes(Advanced(u), c);
    StepCases(tb, u, c);
    SequenceIs(tb, Advanced(u), c);
  }

  lemma InSequenceParts(u: Term)
    requires InSequence(u)
    ensures u.Valid() && u.parser.escape && u.parser.controlSequence && !u.parser.osc
    ensures u.parser.unicodeRemaining == 0 && !u.parser.discardNext && u.parser.escapeOffset >= 1
  {
  }

  lemma AdvancedIs(u: Term)
    requires u.Valid()
    ensures Advanced(u) == u.(parser := u.parser.(escapeOffset := u.parser.escapeOffset + 1)) && Advanced(u).parser.Valid()
  {
  }

  lemma ParameterBytes(t: Term, c: u8)
    requires t.parser.escapeOffset >= 2 && ('0' as int <= c <= '9' as int || c == SEMICOLON)
    ensures !IsFinalByte(t.parser, c) && c < 0x80 && c != 0x18 && c != 0x1a
  {
  }

  lemma SequenceIs(tb: Tables, t: Term, c: u8)
    requires t.Valid() && t.parser.controlSequence && !IsFinalByte(t.parser, c)
    ensures t.parser.Valid() && ControlSequence(tb, t, c) == t.(parser := Parameter(t.parser, c)) && t.(parser := Parameter(t.parser, c)).Valid()
  {
    hide Parameter;
  }

  lemma DigitByte(tb: Tables, t: Term, u: Term, g: Reading, d: nat)
    requires Reads(t, u, g) && d < 10
    ensures Reads(t, PutChar(tb, u, '0' as int + d), g.Digit(d))
  {
    hide *;
    DecimalDigit(d);
    ReadsParts(t, u, g);
    ParameterByte(tb, u, '0' as int + d);
    var p := u.parser.(escapeOffset := u.parser.escapeOffset + 1);
    DigitParameter(p, d);
    ReadsOn(t, u, g, g.Digit(d));
  }

  lemma DecimalDigit(d: nat)
    requires d < 10
    ensures '0' as int <= '0' as int + d <= '9' as int && 0 <= '0' as int + d < 0x100
  {
  }

  lemma ReadsParts(t: Term, u: Term, g: Reading)
    requires Reads(t, u, g)
    ensures InSequence(u) && u.Valid() && g == Reading(u.parser.values, u.parser.count, u.parser.rrr)
  {
  }

  lemma DigitParameter(p: Parser, d: nat)
    requires d < 10 && p.Valid() && p.controlSequence && !IsFinalByte(p, '0' as int + d)
    ensures var g := Reading(p.values, p.count, p.rrr).Digit(d);
      Parameter(p, '0' as int + d) == p.(values := g.values, count := g.count, rrr := g.rrr)
  {
  }

  lemma ReadsOn(t: Term, u: Term, g: Reading, g': Reading)
    requires Reads(t, u, g)
    requires var r := u.(parser := u.parser.(escapeOffset := u.parser.escapeOffset + 1, values := g'.values, count := g'.count, rrr := g'.rrr));
      r.Valid()
    ensures var r := u.(parser := u.parser.(escapeOffset := u.parser.escapeOffset + 1, values := g'.values, count := g'.count, rrr := g'.rrr));
      Reads(t, r, g')
  {
    hide Display.Sized;
  }

  lemma SeparatorByte(tb: Tables, t: Term, u: Term, g: Reading)
    requires Reads(t, u, g) && (g.rrr || g.count == MAX_VALUES)
    ensures Reads(t, PutChar(tb, u, SEMICOLON), g.Next())
  {
    ParameterByte(tb, u, SEMICOLON);
    hide PutChar, Term.Valid, Display.Sized;
  }

  lemma ModShift(a: nat, k: nat)
    ensures (a + k * WORD_MODULUS) % WORD_MODULUS == a % WORD_MODULUS
  {
  }

  /** One more decimal digit, modulo the word size. */
  lemma Horner(n: nat)
    ensures (n / 10 % WORD_MODULUS * 10 % WORD_MODULUS + n % 10) % WORD_MODULUS == n % WORD_MODULUS
  {
    var q, r := n / 10 / WORD_MODULUS, n / 10 % WORD_MODULUS;
    assert n == (q * WORD_MODULUS + r) * 10 + n % 10;
    ModShift(r * 10 + n % 10, q * 10);
    ModShift(r * 10 % WORD_MODULUS + n % 10, r * 10 / WORD_MODULUS);
  }

  lemma NumberDigit(g: Reading, n: nat)
    requires g.Ready()
    ensures (if n < 10 then g else g.Number(n / 10)).Digit(n % 10) == g.Number(n)
  {
    Horner(n);
  }

  /** The digits of a number accumulate to it, modulo the word size. */
  lemma {:induction false} NumberRead(tb: Tables, t: Term, u: Term, g: Reading, n: nat)
    requires u.Valid() && Reads(t, u, g) && g.Ready()
    ensures Reads(t, Run(tb, u, Decimal(n)), g.Number(n))
  {
    NumberDigit(g, n);
    var init := if n < 10 then [] else Decimal(n / 10);
    var c: u8 := '0' as int + n % 10;
    assert Decimal(n) == init + [c];
    if n >= 10 {
      NumberRead(tb, t, u, g, n / 10);
    }
    var w := Run(tb, u, init);
    DigitByte(tb, t, w, if n < 10 then g else g.Number(n / 10), n % 10);
    RunNext(tb, u, init, c);
    hide Reads, Run, PutChar, Reading.Digit, Reading.Number, Reading.Ready, Decimal;
  }

  /** What a printed list leaves in the parameter array. */
  function Stored(vs: seq<nat>): (g: Reading)
    ensures g.Valid()
  {
    Reading(seq(MAX_VALUES, i requires 0 <= i < MAX_VALUES => if i < |vs| then vs[i] % WORD_MODULUS else 0),
            if vs == [] then 0 else Arithmetic.Min(|vs| - 1, MAX_VALUES), 1 <= |vs| <= MAX_VALUES)
  }

  lemma StoredNext(vs: seq<nat>)
    requires |vs| >= 1
    ensures var g := Stored(vs[..|vs| - 1]); g.Next().Ready() && g.Next().Number(vs[|vs| - 1]) == Stored(vs)
    ensures |vs| >= 2 ==> var g := Stored(vs[..|vs| - 1]); g.rrr || g.count == MAX_VALUES
    ensures |vs| == 1 ==> vs[..0] == [] && Stored([]).Next() == Stored([])
  {
  }

  /** A printed list fills the parameter array. */
  lemma {:induction false} ListRead(tb: Tables, t: Term, u: Term, vs: seq<nat>)
    requires u.Valid() && Reads(t, u, Stored([]))
    ensures Reads(t, Run(tb, u, Printed(vs)), Stored(vs))
    decreases |vs|
  {
    if vs != [] {
      var init, last := vs[..|vs| - 1], vs[|vs| - 1];
      StoredNext(vs);
      if |vs| == 1 {
        NumberRead(tb, t, u, Stored([]), last);
      } else {
        ListRead(tb, t, u, init);
        ListNext(tb, t, u, Printed(init), Stored(init), last);
        assert Printed(vs) == Printed(init) + [SEMICOLON] + Decimal(last);
      }
      hide Reads, Run, Stored, Printed, Decimal, Reading.Number, Reading.Next, Reading.Ready;
    }
  }

  /** One more number of a list. */
  lemma ListNext(tb: Tables, t: Term, u: Term, bytes: seq<u8>, g: Reading, n: nat)
    requires u.Valid() && Reads(t, Run(tb, u, bytes), g)
    requires (g.rrr || g.count == MAX_VALUES) && g.Next().Ready()
    ensures Reads(t, Run(tb, u, bytes + [SEMICOLON] + Decimal(n)), g.Next().Number(n))
  {
    hide Reads, Run, PutChar, Decimal, Reading.Number, Reading.Next, Reading.Ready;
    var w := Run(tb, u, bytes);
    SeparatorByte(tb, t, w, g);
    RunNext(tb, u, bytes, SEMICOLON);
    NumberRead(tb, t, PutChar(tb, w, SEMICOLON), g.Next(), n);
    RunAppend(tb, u, bytes + [SEMICOLON], Decimal(n));
  }

  /** The parser is outside any sequence. A cancelled private sequence may have left its flag. */
  ghost predicate Outside(t: Term) {
    && t.Valid() && t.parser.unicodeRemaining == 0 && !t.parser.discardNext && !t.parser.escape
    && t.parser.gSelect == 0 && !t.parser.osc && !t.parser.csi && !t.parser.controlSequence
  }

  /** The parser is in the ground state. */
  ghost predicate Grounded(t: Term) {
    Outside(t) && !t.parser.decPrivate
  }

  /** ESC [ starts a control sequence from outside any. */
  lemma Introduced(tb: Tables, t: Term)
    requires Outside(t)
    ensures var u := Run(tb, t, [ESC, '[' as int]);
      Reads(u, u, Stored([])) && u == t.(parser := u.parser) && u.parser.decPrivate == t.parser.decPrivate
  {
    var bracket: u8 := '[' as int;
    var v := PutChar(tb, t, ESC);
    StepCases(tb, t, ESC);
    assert v == t.(parser := t.parser.(escapeOffset := 0, escape := true));
    StepCases(tb, v, bracket);
    assert Zeros() == Stored([]).values;
    RunNext(tb, t, [ESC], bracket);
    RunNext(tb, t, [], ESC);
    assert [ESC] + [bracket] == [ESC, bracket] && [] + [ESC] == [ESC];
    hide Parser.Valid, Display.Sized, PutChar, Zeros, Stored;
  }

  predicate IsFinal(c: u8) {
    c < 0x80 && c != 0x18 && c != 0x1a && !('0' as int <= c <= '9' as int) && c != SEMICOLON
    && c != '[' as int && c != '?' as int
  }

  /** A list of numbers, printed in decimal and joined by semicolons after ESC [, reaches the final byte
      as its first sixteen numbers modulo the word size; the rest of the array holds the default. Nothing
      is drawn on the way. */
  lemma RoundTrip(tb: Tables, t: Term, vs: seq<nat>, c: u8)
    requires Outside(t)
    requires IsFinal(c)
    ensures var u := Run(tb, t, [ESC, '[' as int] + Printed(vs));
      && u == t.(parser := u.parser) && u.parser.decPrivate == t.parser.decPrivate && InSequence(u)
      && var p := Finish(Advanced(u).parser, c);
      && PutChar(tb, u, c) == Close(FinalByte(tb, Advanced(u).(parser := p), c))
      && p.count == Arithmetic.Min(|vs|, MAX_VALUES)
      && forall i :: 0 <= i < MAX_VALUES ==>
        p.values[i] == if i < |vs| then vs[i] % WORD_MODULUS
                       else if c == 'J' as int || c == 'K' as int || c == 'q' as int then 0 else 1
  {
    var start := Run(tb, t, [ESC, '[' as int]);
    Introduced(tb, t);
    ListRead(tb, start, start, vs);
    RunAppend(tb, t, [ESC, '[' as int], Printed(vs));
    FinalRead(tb, start, Run(tb, start, Printed(vs)), vs, c);
    hide Run, Reads, PutChar, Finish, Printed, FinalByte;
  }

  lemma FinalRead(tb: Tables, t: Term, u: Term, vs: seq<nat>, c: u8)
    requires Reads(t, u, Stored(vs)) && IsFinal(c)
    ensures u == t.(parser := u.parser) && u.parser.decPrivate == t.parser.decPrivate && InSequence(u)
    ensures var p := Finish(Advanced(u).parser, c);
      && PutChar(tb, u, c) == Close(FinalByte(tb, Advanced(u).(parser := p), c))
      && p.count == Arithmetic.Min(|vs|, MAX_VALUES)
      && forall i :: 0 <= i < MAX_VALUES ==>
        p.values[i] == if i < |vs| then vs[i] % WORD_MODULUS
                       else if c == 'J' as int || c == 'K' as int || c == 'q' as int then 0 else 1
  {
    StepCases(tb, u, c);
    hide FinalByte, PutChar, Display.Sized, Closed;
  }

  // ---- Lists with gaps

  function Field(v: Option<nat>): seq<u8> {
    match v case None => [] case Some(n) => Decimal(n)
  }

  /** A parameter list in which numbers may be missing. */
  function Spaced(vs: seq<Option<nat>>): seq<u8> {
    if vs == [] then []
    else if |vs| == 1 then Field(vs[0])
    else Spaced(vs[..|vs| - 1]) + [SEMICOLON] + Field(vs[|vs| - 1])
  }

  /** What it leaves in the parameter array. */
  function StoredFields(vs: seq<Option<nat>>): (g: Reading)
    ensures g.Valid()
  {
    Reading(seq(MAX_VALUES, i requires 0 <= i < MAX_VALUES => if i < |vs| && vs[i].Some? then vs[i].value % WORD_MODULUS else 0),
            if vs == [] then 0 else Arithmetic.Min(|vs| - 1, MAX_VALUES), 1 <= |vs| <= MAX_VALUES && vs[|vs| - 1].Some?)
  }

  /** After a semicolon, whether or not it ends a number. */
  function Past(g: Reading): (r: Reading)
    requires g.Valid()
    ensures r.Valid()
  {
    if g.count < MAX_VALUES then Reading(g.values, g.count + 1, false) else g
  }

  lemma FieldSeparated(tb: Tables, t: Term, u: Term, g: Reading)
    requires Reads(t, u, g) && (g.rrr || g.Ready())
    ensures Reads(t, PutChar(tb, u, SEMICOLON), Past(g))
  {
    ParameterByte(tb, u, SEMICOLON);
    assert !g.rrr && g.count < MAX_VALUES ==> g.values[g.count := 0] == g.values;
    hide PutChar, Term.Valid, Display.Sized;
  }

  lemma StoredField(vs: seq<Option<nat>>)
    requires |vs| >= 1
    ensures var g := StoredFields(vs[..|vs| - 1]);
      && (g.rrr || g.Ready())
      && (|vs| >= 2 ==> Past(g).Ready() && StoredFields(vs) == match vs[|vs| - 1] case None => Past(g) case Some(n) => Past(g).Number(n))
      && (|vs| == 1 ==> g.Ready() && g == Stored([]) && StoredFields(vs) == match vs[0] case None => g case Some(n) => g.Number(n))
  {
  }

  lemma FieldRead(tb: Tables, t: Term, u: Term, g: Reading, v: Option<nat>)
    requires u.Valid() && Reads(t, u, g) && g.Ready()
    ensures Reads(t, Run(tb, u, Field(v)), match v case None => g case Some(n) => g.Number(n))
  {
    hide Reads, Reading.Ready, Reading.Number, Decimal;
    match v
    case None => RunNothing(tb, u);
    case Some(n) => NumberRead(tb, t, u, g, n);
  }

  lemma FieldNext(tb: Tables, t: Term, u: Term, bytes: seq<u8>, g: Reading, v: Option<nat>)
    requires u.Valid() && Reads(t, Run(tb, u, bytes), g) && g.Valid() && (g.rrr || g.Ready()) && Past(g).Ready()
    ensures Reads(t, Run(tb, u, bytes + [SEMICOLON] + Field(v)), match v case None => Past(g) case Some(n) => Past(g).Number(n))
  {
    hide Reads, Run, PutChar, Field, Reading.Number, Past, Reading.Ready;
    var w := Run(tb, u, bytes);
    FieldSeparated(tb, t, w, g);
    RunNext(tb, u, bytes, SEMICOLON);
    FieldRead(tb, t, PutChar(tb, w, SEMICOLON), Past(g), v);
    RunAppend(tb, u, bytes + [SEMICOLON], Field(v));
  }

  lemma {:induction false} FieldsRead(tb: Tables, t: Term, u: Term, vs: seq<Option<nat>>)
    requires u.Valid() && Reads(t, u, Stored([]))
    ensures Reads(t, Run(tb, u, Spaced(vs)), StoredFields(vs))
    decreases |vs|
  {
    hide Reads, Run, Stored, StoredFields, Field, Past, Reading.Number, Reading.Ready;
    if vs == [] {
      RunNothing(tb, u);
      NoFields();
    } else {
      var init, last := vs[..|vs| - 1], vs[|vs| - 1];
      StoredField(vs);
      if |vs| == 1 {
        FieldRead(tb, t, u, Stored([]), last);
      } else {
        FieldsRead(tb, t, u, init);
        FieldNext(tb, t, u, Spaced(init), StoredFields(init), last);
      }
    }
  }

  lemma NoFields()
    ensures StoredFields([]) == Stored([])
  {
  }

  /** The parameters that are there, where a missing number is zero; the rest have their default. */
  ghost predicate Fields(p: Parser, vs: seq<Option<nat>>, c: u8) {
    var n := if vs != [] && vs[|vs| - 1] == None then |vs| - 1 else |vs|;
    && |p.values| == 16 && p.count == Arithmetic.Min(n, 16)
    && forall i :: 0 <= i < 16 ==>
      p.values[i] == if i < n then (if vs[i].Some? then vs[i].value % 0x1_0000_0000 else 0)
                     else if c == 'J' as int || c == 'K' as int || c == 'q' as int then 0 else 1
  }

  /** A missing number is zero, but at the end of the list it is no parameter at all, so that the default is taken. */
  lemma GapsRead(tb: Tables, t: Term, vs: seq<Option<nat>>, c: u8)
    requires Outside(t) && IsFinal(c)
    ensures var u := Run(tb, t, [ESC, '[' as int] + Spaced(vs));
      && u == t.(parser := u.parser) && u.parser.decPrivate == t.parser.decPrivate && InSequence(u)
      && var p := Finish(Advanced(u).parser, c);
      && PutChar(tb, u, c) == Close(FinalByte(tb, Advanced(u).(parser := p), c))
      && Fields(p, vs, c)
  {
    var start := Run(tb, t, [ESC, '[' as int]);
    Introduced(tb, t);
    FieldsRead(tb, start, start, vs);
    RunAppend(tb, t, [ESC, '[' as int], Spaced(vs));
    FieldsFinal(tb, start, Run(tb, start, Spaced(vs)), vs, c);
    hide Run, Reads, PutChar, Finish, Spaced, FinalByte, Fields;
  }

  lemma FieldsFinal(tb: Tables, t: Term, u: Term, vs: seq<Option<nat>>, c: u8)
    requires Reads(t, u, StoredFields(vs)) && IsFinal(c)
    ensures u == t.(parser := u.parser) && u.parser.decPrivate == t.parser.decPrivate && InSequence(u)
    ensures var p := Finish(Advanced(u).parser, c);
      && PutChar(tb, u, c) == Close(FinalByte(tb, Advanced(u).(parser := p), c))
      && Fields(p, vs, c)
  {
    StepCases(tb, u, c);
    hide FinalByte, PutChar, Display.Sized, Closed;
  }
}
