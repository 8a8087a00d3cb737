/**
 UTF-8 stream decoding: the decoder inverts the encoding of section 3 of RFC 3629.
 */
module Utf8 {
  import opened Words
  import opened DisplayModel
  import opened TerminalModel
  import opened Steps

  type CodePoint = n: int | 0x80 <= n <= 0x10_ffff witness 0x80

  /** Two, three or four bytes, as section 3 of RFC 3629 has it. */
  function Encode(cp: CodePoint): (bytes: seq<u8>)
  {
    if cp < 0x800 then [0xc0 + cp / 0x40, 0x80 + cp % 0x40]
    else if cp < 0x1_0000 then [0xe0 + cp / 0x1000, 0x80 + cp / 0x40 % 0x40, 0x80 + cp % 0x40]
    else [0xf0 + cp / 0x4_0000, 0x80 + cp / 0x1000 % 0x40, 0x80 + cp / 0x40 % 0x40, 0x80 + cp % 0x40]
  }

  function EncodeAll(cps: seq<CodePoint>): seq<u8> {
    if cps == [] then [] else Encode(cps[0]) + EncodeAll(cps[1..])
  }

  /** Prints a list of code points, one after the other. */
  function EmitAll(tb: Tables, t: Term, cps: seq<CodePoint>): (r: Term)
    requires t.Valid()
    ensures r.Valid()
    decreases |cps|
  {
    if cps == [] then t else EmitAll(tb, Emit(tb, Decoded(t, cps[0]), cps[0]), cps[1..])
  }

  /** The parser after a complete sequence. */
  function Decoded(t: Term, codePoint: nat): (r: Term)
    requires t.Valid()
    ensures r.Valid()
  {
    t.(parser := t.parser.(unicodeRemaining := 0, codePoint := codePoint))
  }

  /** The parser waiting for `n` continuation bytes. */
  function Waiting(t: Term, codePoint: nat, n: nat): (r: Term)
    requires t.Valid() && n <= 3
    ensures r.Valid()
  {
    t.(parser := t.parser.(unicodeRemaining := n, codePoint := codePoint))
  }

  /** `hi << (6 * n)`. */
  function Shifted(hi: nat, n: nat): nat
    requires n <= 3
  {
    if n == 0 then hi else if n == 1 then hi * 0x40 else if n == 2 then hi * 0x1000 else hi * 0x4_0000
  }

  lemma OrZero(b: nat)
    requires b < 0x40
    ensures Or6(0, b) == b
  {
    assert (0 as bv6) | (b as bv6) == b as bv6;
  }

  /** A continuation byte fills the next empty digit. */
  lemma FillEmpty(hi: nat, bits: nat, n: nat)
    requires bits < 0x40 && n < 3
    ensures Fill(Shifted(hi, n + 1), bits, n) == Shifted(hi * 0x40 + bits, n)
  {
    OrZero(bits);
    hide Or6;
    if n == 0 {
      assert hi * 0x40 / 0x40 == hi && hi * 0x40 % 0x40 == 0;
    } else if n == 1 {
      assert hi * 0x1000 / 0x1000 == hi && hi * 0x1000 / 0x40 == hi * 0x40 && hi * 0x40 % 0x40 == 0 && hi * 0x1000 % 0x40 == 0;
    } else {
      assert hi * 0x4_0000 / 0x4_0000 == hi && hi * 0x4_0000 / 0x1000 == hi * 0x40 && hi * 0x40 % 0x40 == 0 && hi * 0x4_0000 % 0x1000 == 0;
    }
  }

  lemma LeadStep(tb: Tables, t: Term, c: u8)
    requires t.Valid() && t.parser.unicodeRemaining == 0 && !t.parser.discardNext && 0xc0 <= c <= 0xf7
    ensures PutChar(tb, t, c) == if c <= 0xdf then Waiting(t, Shifted(c - 0xc0, 1), 1)
      else if c <= 0xef then Waiting(t, Shifted(c - 0xe0, 2), 2) else Waiting(t, Shifted(c - 0xf0, 3), 3)
  {
    hide *;
    LeadGround(tb, t, c);
    LeadIs(t, c);
  }

  lemma LeadGround(tb: Tables, t: Term, c: u8)
    requires t.Valid() && t.parser.unicodeRemaining == 0 && !t.parser.discardNext && 0xc0 <= c <= 0xf7
    ensures t.parser.Valid() && PutChar(tb, t, c) == t.(parser := Lead(t.parser, c))
  {
    hide Parser.Valid, Display.Sized, EscapeParse, Designate, Control, Print, Lead, Continue;
  }

  lemma LeadIs(t: Term, c: u8)
    requires t.Valid() && t.parser.Valid() && 0xc0 <= c <= 0xf7
    ensures t.(parser := Lead(t.parser, c)) ==
      if c <= 0xdf then Waiting(t, Shifted(c - 0xc0, 1), 1)
      else if c <= 0xef then Waiting(t, Shifted(c - 0xe0, 2), 2) else Waiting(t, Shifted(c - 0xf0, 3), 3)
  {
    hide Parser.Valid, Display.Sized;
  }

  lemma ContinuationByte(tb: Tables, t: Term, bits: nat)
    requires t.Valid() && !t.parser.discardNext && t.parser.unicodeRemaining != 0 && bits < 0x40
    ensures PutChar(tb, t, 0x80 + bits) == Continue(tb, t, 0x80 + bits) && SixBits(0x80 + bits) == bits
  {
    hide Parser.Valid, Display.Sized, Ground, Emit, Fill;
  }

  lemma ContinueForm(tb: Tables, t: Term, codePoint: nat, n: nat, c: u8)
    requires t.Valid() && 1 <= n <= 3
    ensures var filled := Fill(codePoint, SixBits(c), n - 1);
      Continue(tb, Waiting(t, codePoint, n), c)
      == if n == 1 then Emit(tb, Decoded(t, filled), filled) else Waiting(t, filled, n - 1)
  {
    hide Parser.Valid, Display.Sized, Emit, Fill, SixBits;
  }

  lemma ContinueStep(tb: Tables, t: Term, hi: nat, n: nat, bits: nat)
    requires t.Valid() && !t.parser.discardNext && 1 <= n <= 3 && bits < 0x40
    ensures var codePoint := hi * 0x40 + bits;
      PutChar(tb, Waiting(t, Shifted(hi, n), n), 0x80 + bits)
      == if n == 1 then Emit(tb, Decoded(t, codePoint), codePoint) else Waiting(t, Shifted(codePoint, n - 1), n - 1)
  {
    FillEmpty(hi, bits, n - 1);
    ContinuationByte(tb, Waiting(t, Shifted(hi, n), n), bits);
    ContinueForm(tb, t, Shifted(hi, n), n, 0x80 + bits);
    assert Shifted(hi * 0x40 + bits, 0) == hi * 0x40 + bits;
    hide Parser.Valid, Display.Sized, Emit, Fill, Shifted, PutChar, SixBits, Continue;
  }

  /** The number whose base-64 digits are those of `hi` followed by `digits`. */
  function Value(hi: nat, digits: seq<nat>): nat
    decreases |digits|
  {
    if digits == [] then hi else Value(hi * 0x40 + digits[0], digits[1..])
  }

  ghost predicate AreDigits(digits: seq<nat>) {
    forall i :: 0 <= i < |digits| ==> digits[i] < 0x40
  }

  function Tail(digits: seq<nat>): (bytes: seq<u8>)
    requires AreDigits(digits)
    ensures |bytes| == |digits|
  {
    if digits == [] then [] else [0x80 + digits[0]] + Tail(digits[1..])
  }

  /** The first continuation byte of a sequence. */
  lemma TailStep(tb: Tables, t: Term, hi: nat, digits: seq<nat>)
    requires t.Valid() && !t.parser.discardNext && 1 <= |digits| <= 3 && AreDigits(digits)
    ensures var n, v := |digits|, hi * 0x40 + digits[0];
      && digits[0] < 0x40 && AreDigits(digits[1..])
      && Tail(digits) == [0x80 + digits[0]] + Tail(digits[1..]) && Value(hi, digits) == Value(v, digits[1..])
      && PutChar(tb, Waiting(t, Shifted(hi, n), n), 0x80 + digits[0])
      == if n == 1 then Emit(tb, Decoded(t, v), v) else Waiting(t, Shifted(v, n - 1), n - 1)
  {
    hide *;
    DigitsIs(hi, digits);
    ContinueStep(tb, t, hi, |digits|, digits[0]);
  }

  lemma DigitsIs(hi: nat, digits: seq<nat>)
    requires 1 <= |digits| && AreDigits(digits)
    ensures digits[0] < 0x40 && AreDigits(digits[1..])
    ensures Tail(digits) == [0x80 + digits[0]] + Tail(digits[1..]) && Value(hi, digits) == Value(hi * 0x40 + digits[0], digits[1..])
  {
  }

  /** The continuation bytes of a sequence complete its code point. */
  lemma {:induction false} TailDecodes(tb: Tables, t: Term, hi: nat, digits: seq<nat>)
    requires t.Valid() && !t.parser.discardNext && 1 <= |digits| <= 3 && AreDigits(digits)
    ensures Run(tb, Waiting(t, Shifted(hi, |digits|), |digits|), Tail(digits))
         == Emit(tb, Decoded(t, Value(hi, digits)), Value(hi, digits))
    decreases |digits|
  {
    hide *;
    TailStep(tb, t, hi, digits);
    var n, v := |digits|, hi * 0x40 + digits[0];
    RunFirst(tb, Waiting(t, Shifted(hi, n), n), 0x80 + digits[0], Tail(digits[1..]));
    if n > 1 {
      TailDecodes(tb, t, v, digits[1..]);
    } else {
      NoDigits(v, digits[1..]);
      RunNothing(tb, Emit(tb, Decoded(t, v), v));
    }
  }

  lemma NoDigits(hi: nat, digits: seq<nat>)
    requires digits == []
    ensures AreDigits(digits) && Tail(digits) == [] && Value(hi, digits) == hi
  {
  }

  /** Only the last continuation byte prints. */
  lemma {:induction false} TailSilent(tb: Tables, t: Term, hi: nat, digits: seq<nat>, k: nat)
    requires t.Valid() && !t.parser.discardNext && 1 <= |digits| <= 3 && AreDigits(digits) && k < |digits|
    ensures Run(tb, Waiting(t, Shifted(hi, |digits|), |digits|), Tail(digits)[..k]).display == t.display
    decreases |digits|
  {
    hide *;
    var n, v := |digits|, hi * 0x40 + digits[0];
    var w := Waiting(t, Shifted(hi, n), n);
    if k > 0 {
      TailStep(tb, t, hi, digits);
      TailSilent(tb, t, v, digits[1..], k - 1);
      assert Tail(digits)[..k] == [0x80 + digits[0]] + Tail(digits[1..])[..k - 1];
      RunFirst(tb, w, 0x80 + digits[0], Tail(digits[1..])[..k - 1]);
    } else {
      RunNothing(tb, w);
      SameDisplay(t, Shifted(hi, n), n);
    }
  }

  lemma SameDisplay(t: Term, codePoint: nat, n: nat)
    requires t.Valid() && n <= 3
    ensures Waiting(t, codePoint, n).display == t.display
  {
  }

  lemma OneDigit(hi: nat, d0: nat)
    requires d0 < 0x40
    ensures Tail([d0]) == [0x80 + d0] && Value(hi, [d0]) == hi * 0x40 + d0
  {
    assert [d0][1..] == [];
  }

  lemma TwoDigits(hi: nat, d1: nat, d0: nat)
    requires d1 < 0x40 && d0 < 0x40
    ensures Tail([d1, d0]) == [0x80 + d1, 0x80 + d0] && Value(hi, [d1, d0]) == (hi * 0x40 + d1) * 0x40 + d0
  {
    assert [d1, d0][1..] == [d0];
    OneDigit(hi * 0x40 + d1, d0);
  }

  lemma ThreeDigits(hi: nat, d2: nat, d1: nat, d0: nat)
    requires d2 < 0x40 && d1 < 0x40 && d0 < 0x40
    ensures Tail([d2, d1, d0]) == [0x80 + d2, 0x80 + d1, 0x80 + d0]
    ensures Value(hi, [d2, d1, d0]) == ((hi * 0x40 + d2) * 0x40 + d1) * 0x40 + d0
  {
    assert [d2, d1, d0][1..] == [d1, d0];
    TwoDigits(hi * 0x40 + d2, d1, d0);
  }

  lemma Digits(cp: nat)
    ensures cp == cp / 0x40 * 0x40 + cp % 0x40
    ensures cp / 0x40 == cp / 0x1000 * 0x40 + cp / 0x40 % 0x40
    ensures cp / 0x1000 == cp / 0x4_0000 * 0x40 + cp / 0x1000 % 0x40
  {
  }

  // ---- All sequences

  predicate IsTail(b: u8) {
    0x80 <= b < 0xc0
  }

  /** A lead byte and as many continuation bytes as it announces. */
  predicate IsSequence(s: seq<u8>) {
    && 2 <= |s| <= 4
    && (if |s| == 2 then 0xc0 <= s[0] <= 0xdf else if |s| == 3 then 0xe0 <= s[0] <= 0xef else 0xf0 <= s[0] <= 0xf7)
    && forall i :: 1 <= i < |s| ==> IsTail(s[i])
  }

  /** The bits of a lead byte, by the length of its sequence, and of a continuation byte. */
  function LeadBits(b: u8, n: nat): (r: nat)
    ensures r < (if n == 2 then 0x20 else if n == 3 then 0x10 else 0x08)
  {
    if n == 2 then b % 0x20 else if n == 3 then b % 0x10 else b % 0x08
  }

  function TailBits(b: u8): (r: nat)
    ensures r < 0x40
  {
    b % 0x40
  }

  /** The number that the bits of a sequence stand for. */
  function Number(s: seq<u8>): nat
    requires IsSequence(s)
  {
    var h := LeadBits(s[0], |s|) * 0x40 + TailBits(s[1]);
    if |s| == 2 then h
    else if |s| == 3 then h * 0x40 + TailBits(s[2])
    else (h * 0x40 + TailBits(s[2])) * 0x40 + TailBits(s[3])
  }

  /** How many numbers the sequences of `n` bytes stand for. */
  function Room(n: nat): nat {
    if n == 2 then 0x800 else if n == 3 then 0x1_0000 else 0x20_0000
  }

  /** The sequence of `n` bytes for a number. */
  function Form(v: nat, n: nat): (s: seq<u8>)
    requires 2 <= n <= 4 && v < Room(n)
    ensures |s| == n
  {
    if n == 2 then [0xc0 + v / 0x40, 0x80 + v % 0x40]
    else if n == 3 then [0xe0 + v / 0x1000, 0x80 + v / 0x40 % 0x40, 0x80 + v % 0x40]
    else [0xf0 + v / 0x4_0000, 0x80 + v / 0x1000 % 0x40, 0x80 + v / 0x40 % 0x40, 0x80 + v % 0x40]
  }

  /** The sequences for a number are its forms of every length that has room for it, and no other ones. */
  lemma FormExact(s: seq<u8>, v: nat)
    ensures IsSequence(s) && Number(s) == v <==> 2 <= |s| <= 4 && v < Room(|s|) && s == Form(v, |s|)
  {
    if IsSequence(s) && Number(s) == v {
      SequenceHasForm(s);
    }
    if 2 <= |s| <= 4 && v < Room(|s|) && s == Form(v, |s|) {
      FormIsSequence(v, |s|);
    }
    hide IsSequence, Number, Form;
  }

  lemma SequenceHasForm(s: seq<u8>)
    requires IsSequence(s)
    ensures Number(s) < Room(|s|) && s == Form(Number(s), |s|)
  {
    BytesOf(s);
    hide LeadBits, TailBits;
    if |s| == 2 {
      LastDigit(LeadBits(s[0], 2), TailBits(s[1]));
    } else if |s| == 3 {
      LastTwoDigits(LeadBits(s[0], 3), TailBits(s[1]), TailBits(s[2]));
    } else {
      LastThreeDigits(LeadBits(s[0], 4), TailBits(s[1]), TailBits(s[2]), TailBits(s[3]));
    }
  }

  lemma BytesOf(s: seq<u8>)
    requires IsSequence(s)
    ensures s[0] == (if |s| == 2 then 0xc0 else if |s| == 3 then 0xe0 else 0xf0) + LeadBits(s[0], |s|)
    ensures forall i :: 1 <= i < |s| ==> s[i] == 0x80 + TailBits(s[i])
  {
    forall i | 1 <= i < |s|
      ensures s[i] == 0x80 + TailBits(s[i])
    {
      assert IsTail(s[i]);
    }
  }

  lemma LastDigit(h: nat, d: nat)
    requires d < 0x40
    ensures (h * 0x40 + d) / 0x40 == h && (h * 0x40 + d) % 0x40 == d
  {
  }

  lemma LastTwoDigits(h: nat, d1: nat, d0: nat)
    requires d1 < 0x40 && d0 < 0x40
    ensures var v := (h * 0x40 + d1) * 0x40 + d0;
      v / 0x1000 == h && v / 0x40 % 0x40 == d1 && v % 0x40 == d0
  {
    LastDigit(h, d1);
    LastDigit(h * 0x40 + d1, d0);
  }

  lemma LastThreeDigits(h: nat, d2: nat, d1: nat, d0: nat)
    requires d2 < 0x40 && d1 < 0x40 && d0 < 0x40
    ensures var v := ((h * 0x40 + d2) * 0x40 + d1) * 0x40 + d0;
      v / 0x4_0000 == h && v / 0x1000 % 0x40 == d2 && v / 0x40 % 0x40 == d1 && v % 0x40 == d0
  {
    LastTwoDigits(h, d2, d1);
    LastDigit((h * 0x40 + d2) * 0x40 + d1, d0);
  }

  lemma FormIsSequence(v: nat, n: nat)
    requires 2 <= n <= 4 && v < Room(n)
    ensures IsSequence(Form(v, n)) && Number(Form(v, n)) == v
  {
    Digits(v);
    TailBack(v % 0x40);
    TailBack(v / 0x40 % 0x40);
    TailBack(v / 0x1000 % 0x40);
    hide LeadBits, TailBits;
    if n == 2 {
      LeadBack(v / 0x40, 2);
    } else if n == 3 {
      LeadBack(v / 0x1000, 3);
    } else {
      LeadBack(v / 0x4_0000, 4);
    }
  }

  lemma LeadBack(h: nat, n: nat)
    requires 2 <= n <= 4 && h < (if n == 2 then 0x20 else if n == 3 then 0x10 else 0x08)
    ensures LeadBits((if n == 2 then 0xc0 else if n == 3 then 0xe0 else 0xf0) + h, n) == h
  {
  }

  lemma TailBack(d: nat)
    requires d < 0x40
    ensures TailBits(0x80 + d) == d && IsTail(0x80 + d)
  {
  }

  /** The digits of a sequence after its lead byte. */
  lemma SequenceDigits(s: seq<u8>) returns (hi: nat, digits: seq<nat>)
    requires IsSequence(s)
    ensures 1 <= |digits| <= 3 && AreDigits(digits) && Value(hi, digits) == Number(s)
    ensures hi < (if |digits| == 1 then 0x20 else if |digits| == 2 then 0x10 else 0x08)
    ensures s == [(if |digits| == 1 then 0xc0 else if |digits| == 2 then 0xe0 else 0xf0) + hi] + Tail(digits)
  {
    BytesOf(s);
    hide Value, Tail, LeadBits, TailBits;
    hi := LeadBits(s[0], |s|);
    if |s| == 2 {
      digits := [TailBits(s[1])];
      OneDigit(hi, digits[0]);
    } else if |s| == 3 {
      digits := [TailBits(s[1]), TailBits(s[2])];
      TwoDigits(hi, digits[0], digits[1]);
    } else {
      digits := [TailBits(s[1]), TailBits(s[2]), TailBits(s[3])];
      ThreeDigits(hi, digits[0], digits[1], digits[2]);
    }
  }

  /** Every sequence is decoded to its number, and nothing is printed before its last byte. */
  lemma SequenceDecodes(tb: Tables, t: Term, s: seq<u8>)
    requires t.Valid() && t.parser.unicodeRemaining == 0 && !t.parser.discardNext && IsSequence(s)
    ensures Run(tb, t, s) == Emit(tb, Decoded(t, Number(s)), Number(s))
    ensures forall k :: 0 <= k < |s| ==> Run(tb, t, s[..k]).display == t.display
  {
    hide *;
    var hi, digits := SequenceDigits(s);
    var rest := Tail(digits);
    LeadStep(tb, t, s[0]);
    TailDecodes(tb, t, hi, digits);
    RunFirst(tb, t, s[0], rest);
    forall k | 0 <= k < |s|
      ensures Run(tb, t, s[..k]).display == t.display
    {
      if k > 0 {
        TailSilent(tb, t, hi, digits, k - 1);
        RunFirst(tb, t, s[0], rest[..k - 1]);
        assert s[..k] == [s[0]] + rest[..k - 1];
      } else {
        RunNothing(tb, t);
        assert s[..0] == [];
      }
    }
  }

  /** The encoding of a code point is its shortest form. */
  lemma EncodeIsForm(cp: CodePoint)
    ensures var n := if cp < 0x800 then 2 else if cp < 0x1_0000 then 3 else 4;
      cp < Room(n) && Encode(cp) == Form(cp, n) && IsSequence(Encode(cp)) && Number(Encode(cp)) == cp
  {
    FormIsSequence(cp, if cp < 0x800 then 2 else if cp < 0x1_0000 then 3 else 4);
  }

  /** Section 3 of RFC 3629 permits the encodings of code points other than surrogates. */
  ghost predicate Permitted(s: seq<u8>) {
    exists cp: CodePoint :: !(0xd800 <= cp <= 0xdfff) && Encode(cp) == s
  }

  /** The decoder accepts more: exactly the sequences that are longer than they need be, or stand for surrogates or for
      numbers above U+10FFFF. */
  lemma PermittedExact(s: seq<u8>)
    requires IsSequence(s)
    ensures var v, least := Number(s), if |s| == 2 then 0x80 else Room(|s| - 1);
      Permitted(s) <==> least <= v <= 0x10_ffff && !(0xd800 <= v <= 0xdfff)
  {
    var v := Number(s);
    SequenceHasForm(s);
    if 0x80 <= v <= 0x10_ffff {
      EncodeIsForm(v);
    }
    forall cp: CodePoint | Encode(cp) == s
      ensures cp == v
    {
      EncodeIsForm(cp);
    }
    hide Number, Encode, Form;
  }

  /** An overlong form of a letter is taken for it. */
  lemma OverlongLetter(tb: Tables, t: Term)
    requires t.Valid() && t.parser.unicodeRemaining == 0 && !t.parser.discardNext
    ensures Run(tb, t, [0xc1, 0x81]) == Emit(tb, Decoded(t, 0x41), 0x41) && !Permitted([0xc1, 0x81])
  {
    var s: seq<u8> := [0xc1, 0x81];
    assert IsSequence(s) && Number(s) == 0x41;
    hide Run, Emit, Permitted;
    SequenceDecodes(tb, t, s);
    PermittedExact(s);
  }

  /** The encoding of one code point is decoded to it, and nothing is printed before its last byte. */
  lemma Decodes(tb: Tables, t: Term, cp: CodePoint)
    requires t.Valid() && t.parser.unicodeRemaining == 0 && !t.parser.discardNext
    ensures Run(tb, t, Encode(cp)) == Emit(tb, Decoded(t, cp), cp)
    ensures forall k :: 0 <= k < |Encode(cp)| ==> Run(tb, t, Encode(cp)[..k]).display == t.display
  {
    hide *;
    EncodeIsForm(cp);
    SequenceDecodes(tb, t, Encode(cp));
  }

  /** The encoding of any list of code points is decoded to exactly that list. */
  lemma {:induction false} DecodesAll(tb: Tables, t: Term, cps: seq<CodePoint>)
    requires t.Valid() && t.parser.unicodeRemaining == 0 && !t.parser.discardNext
    ensures Run(tb, t, EncodeAll(cps)) == EmitAll(tb, t, cps)
    decreases |cps|
  {
    if cps != [] {
      Decodes(tb, t, cps[0]);
      RunAppend(tb, t, Encode(cps[0]), EncodeAll(cps[1..]));
      hide Run, Parser.Valid, Display.Sized, Encode;
      DecodesAll(tb, Emit(tb, Decoded(t, cps[0]), cps[0]), cps[1..]);
    }
  }

  /** A byte that breaks a sequence is handled as if the sequence had not been started. */
  lemma BrokenSequence(tb: Tables, t: Term, c: u8)
    requires t.Valid() && !IsContinuation(c)
    ensures PutChar(tb, t, c) == PutChar(tb, Waiting(t, t.parser.codePoint, 0), c)
  {
    hide Ground, Continue;
  }
}
