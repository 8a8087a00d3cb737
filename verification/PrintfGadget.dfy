/**
 The bounded printer writing through its output gadget (`src/libc/printf.c`): positions go on counting past
 the end of the buffer, so the count does not depend on the size.
 */
module PrintfGadget {
  import Arithmetic
  import opened Words
  import opened PrintfText

  /** A store at a 32-bit position, dropped at or behind the limit. */
  function Store(s: seq<char>, position: nat, c: char, limit: nat): (r: seq<char>)
    ensures |r| == |s|
  {
    var p := position % WORD_MODULUS;
    if p < limit && p < |s| then s[p := c] else s
  }

  /** The buffer after the characters `out` have been put one after the other. */
  function Shown(initial: seq<char>, out: seq<char>, limit: nat): (r: seq<char>)
    ensures |r| == |initial|
  {
    if out == [] then initial
    else Store(Shown(initial, out[..|out| - 1], limit), |out| - 1, out[|out| - 1], limit)
  }

  /** Until positions wrap around, the buffer holds the beginning of the output. */
  lemma {:induction false} ShownPrefix(initial: seq<char>, out: seq<char>, limit: nat, k: nat)
    requires |out| <= WORD_MODULUS && k < |initial|
    ensures Shown(initial, out, limit)[k] == if k < |out| && k < limit then out[k] else initial[k]
    decreases |out|
  {
    if out != [] {
      ShownPrefix(initial, out[..|out| - 1], limit, k);
    }
  }

  lemma ShownNext(initial: seq<char>, out: seq<char>, c: char, limit: nat)
    ensures Shown(initial, out + [c], limit) == Store(Shown(initial, out, limit), |out|, c, limit)
  {
    var all := out + [c];
    assert all[..|all| - 1] == out;
  }

  class Gadget {
    const buffer: array<char>
    const maxChars: nat
    var pos: nat
    /** Everything put so far, and the buffer before that. */
    ghost var out: seq<char>
    ghost const initial: seq<char>

    ghost predicate Valid()
      reads this, buffer
    {
      && maxChars <= buffer.Length && maxChars <= INT_MAX
      && pos == |out| % WORD_MODULUS
      && buffer[..] == Shown(initial, out, maxChars)
    }

    /** `buffer_gadget`. */
    constructor (buffer: array<char>, size: nat)
      requires size <= buffer.Length
      ensures Valid() && out == [] && this.buffer == buffer && initial == buffer[..]
      ensures maxChars == if size > INT_MAX then INT_MAX else size
    {
      this.buffer := buffer;
      maxChars := if size > INT_MAX then INT_MAX else size;
      pos := 0;
      out := [];
      initial := buffer[..];
    }

    /** `putchar_via_gadget`. */
    method PutChar(c: char)
      requires Valid()
      modifies this`pos, this`out, buffer
      ensures Valid() && out == old(out) + [c]
      ensures old(pos) < WORD_MODULUS && pos == (old(pos) + 1) % WORD_MODULUS
    {
      ShownNext(initial, out, c, maxChars);
      CountOn(|out|);
      hide Shown;
      var writePos := pos;
      pos := (pos + 1) % WORD_MODULUS;
      out := out + [c];
      if writePos < maxChars {
        buffer[writePos] := c;
      }
    }

    method PutRepeat(c: char, from: nat, to: nat)
      requires Valid()
      modifies this`pos, this`out, buffer
      ensures Valid() && out == old(out) + Repeat(c, to - from)
    {
      hide Valid;
      var i := from;
      assert out == old(out) + Repeat(c, 0);
      while i < to
        invariant from <= i && (i <= to || i == from)
        invariant Valid() && out == old(out) + Repeat(c, i - from)
      {
        PutChar(c);
        i := i + 1;
      }
    }

    /** The characters of a buffer, last one first. */
    method PutReversed(buf: seq<char>)
      requires Valid()
      modifies this`pos, this`out, buffer
      ensures Valid() && out == old(out) + Reverse(buf)
    {
      hide Valid;
      var len := |buf|;
      assert out == old(out) + Reverse(buf[len..]);
      while len > 0
        invariant 0 <= len <= |buf|
        invariant Valid() && out == old(out) + Reverse(buf[len..])
      {
        len := len - 1;
        ReverseNext(buf, len);
        PutChar(buf[len]);
      }
      assert buf[0..] == buf;
    }

    /** `out_rev_`. */
    method OutRev(buf: seq<char>, width: u32, flags: Flags)
      requires Valid() && |buf| < WORD_MODULUS
      modifies this`pos, this`out, buffer
      ensures Valid() && out == old(out) + PrintfText.OutRev(buf, width, flags)
    {
      hide Valid, Shown;
      var startPos := pos;
      Position();
      if !flags.left && !flags.zeropad {
        PutRepeat(' ', |buf|, width);
      }
      PutReversed(buf);
      if flags.left {
        Position();
        Distance(|old(out)|, |buf|);
        PadRight(startPos, width);
      }
    }

    lemma Position()
      requires Valid()
      ensures pos == |out| % WORD_MODULUS
    {
    }

    /** Blanks until the field that starts at `startPos` is `width` wide. */
    method PadRight(startPos: nat, width: u32)
      requires Valid() && startPos < WORD_MODULUS
      modifies this`pos, this`out, buffer
      ensures Valid() && out == old(out) + Repeat(' ', width - (old(pos) - startPos) % WORD_MODULUS)
    {
      hide Valid;
      ghost var used := (pos - startPos) % WORD_MODULUS;
      ghost var n := 0;
      assert out == old(out) + Repeat(' ', 0);
      while (pos - startPos) % WORD_MODULUS < width
        invariant Valid() && n >= 0 && out == old(out) + Repeat(' ', n)
        invariant n == 0 || used + n <= width
        invariant (pos - startPos) % WORD_MODULUS == used + n
        decreases width - n
      {
        NextDistance(pos, startPos);
        PutChar(' ');
        n := n + 1;
      }
    }

    /** `print_integer`: the digits, built backwards. */
    method PrintInteger(value: u64, negative: bool, base: nat, precision: u32, width: u32, flags0: Flags)
      requires Valid() && 2 <= base <= 16
      modifies this`pos, this`out, buffer
      ensures Valid() && out == old(out) + Integer(value, negative, base, precision, width, flags0)
    {
      hide Valid, Integer, Finalized, Digits;
      IntegerParts(value, negative, base, precision, width, flags0);
      var buf := new char[BUFFER_SIZE](_ => NUL);
      var len, flags := 0, flags0;
      if value == 0 {
        if !flags.precision {
          buf[0] := '0';
          len := 1;
          flags := flags.(hash := false);
        } else if base == HEX {
          flags := flags.(hash := false);
        }
      } else {
        len := PutDigits(buf, value, base, flags.uppercase);
      }
      assert value == 0 ==> buf[..len] == if flags0.precision then [] else ['0'];
      Finalize(buf, len, negative, base, precision, width, flags);
    }

    /** `print_integer_finalization`. */
    method Finalize(buf: array<char>, len0: nat, negative: bool, base: nat, precision: u32, width0: u32, flags: Flags)
      requires Valid() && buf.Length == BUFFER_SIZE && len0 <= BUFFER_SIZE && buf != buffer
      modifies this`pos, this`out, buffer, buf
      ensures Valid() && out == old(out) + Finalized(old(buf[..len0]), negative, base, precision, width0, flags)
    {
      hide Valid, PadZeros, TakeBack, AddPrefix, Append, PrintfText.OutRev;
      var len, width := len0, width0;
      var unpaddedLen := len;
      if !flags.left {
        if width != 0 && flags.zeropad && (negative || flags.plus || flags.space) {
          width := width - 1;
        }
        if flags.zeropad {
          len := PadBuffer(buf, len, width);
        }
      }
      len := PadBuffer(buf, len, precision);
      assert buf[..len] == Padded(old(buf[..len0]), negative, precision, width0, flags);
      var hash := flags.hash;
      if base == OCTAL && len > unpaddedLen {
        hash := false;
      }
      if hash || flags.pointer {
        len := PutPrefix(buf, len, unpaddedLen, base, precision, width, flags);
      }
      assert buf[..len] == Prefixed(old(buf[..len0]), negative, base, precision, width0, flags);
      hide AddSign;
      len := PutSign(buf, len, negative, flags);
      OutRev(buf[..len], width, flags);
    }

    /** Blanks, unless the field is left-adjusted; the text; blanks otherwise. */
    method PutField(text: seq<char>, length: nat, width: u32, left: bool)
      requires Valid()
      modifies this`pos, this`out, buffer
      ensures Valid()
      ensures out == old(out) + if left then text + Repeat(' ', width - length) else Repeat(' ', width - length) + text
    {
      hide Valid;
      if !left {
        PutRepeat(' ', length, width);
      }
      PutText(text);
      if left {
        PutRepeat(' ', length, width);
      }
    }

    method PutText(text: seq<char>)
      requires Valid()
      modifies this`pos, this`out, buffer
      ensures Valid() && out == old(out) + text
    {
      hide Valid;
      var i := 0;
      while i < |text|
        invariant 0 <= i <= |text| && Valid() && out == old(out) + text[..i]
      {
        PutChar(text[i]);
        i := i + 1;
      }
      assert text[..i] == text;
    }

    /** The specifiers for integers. */
    method PutIntegerConversion(c: char, s: Spec, bits: u64)
      requires Valid() && IsInteger(c) && s.width < WORD_MODULUS && s.precision < WORD_MODULUS
      modifies this`pos, this`out, buffer
      ensures Valid() && out == old(out) + IntegerConversion(c, s, bits)
    {
      hide *;
      var base, flags := IntegerFormat(c, s.flags);
      var signed := IsSigned(c);
      var value := ArgValue(bits, signed, s.flags);
      ValueRange(bits, signed, s.flags);
      ConversionIs(c, s, bits);
      PrintInteger(Abs(value), value < 0, base, s.precision, s.width, flags);
    }

    /** `%s`. */
    method PutStringConversion(s: Spec, arg: Arg)
      requires Valid() && s.width < WORD_MODULUS
      modifies this`pos, this`out, buffer
      ensures Valid() && out == old(out) + StringConversion(s, arg)
    {
      hide Valid, PrintfText.OutRev;
      if arg.text == None {
        OutRev(")llun(", s.width, s.flags);
        return;
      }
      var p := arg.text.value;
      var limit := if s.precision != 0 then s.precision else INT_MAX;
      var l := if |p| < limit then |p| else limit;
      if s.flags.precision {
        l := if l < s.precision then l else s.precision;
      }
      var shown := if s.flags.precision && s.precision < |p| then p[..s.precision] else p;
      PutField(shown, l, s.width, s.flags.left);
    }

    method PutPointerConversion(s: Spec, bits: u64)
      requires Valid() && s.precision < WORD_MODULUS
      modifies this`pos, this`out, buffer
      ensures Valid() && out == old(out) + PointerConversion(s, bits)
    {
      hide Valid, PrintfText.OutRev, Integer;
      var flags := s.flags.(zeropad := true, pointer := true);
      if bits == 0 {
        OutRev(")lin(", 18, flags);
      } else {
        PrintInteger(bits, false, HEX, s.precision, 18, flags);
      }
    }

    /** The conversion of one specifier. */
    method PutConversion(c: char, s: Spec, args: nat -> Arg) returns (k: nat)
      requires Valid() && s.width < WORD_MODULUS && s.precision < WORD_MODULUS
      modifies this`pos, this`out, buffer
      ensures Valid() && (out, k) == (old(out) + Conversion(c, s, args).0, Conversion(c, s, args).1)
    {
      hide Valid, IntegerConversion, StringConversion, PointerConversion;
      k := s.arg;
      if IsInteger(c) {
        PutIntegerConversion(c, s, args(s.arg).bits);
        k := k + 1;
      } else if c == 'c' {
        PutField([(args(s.arg).bits % 0x100) as char], 1, s.width, s.flags.left);
        k := k + 1;
      } else if c == 's' {
        PutStringConversion(s, args(s.arg));
        k := k + 1;
      } else if c == 'p' {
        PutPointerConversion(s, args(s.arg).bits);
        k := k + 1;
      } else if c == 'n' {
        assert out + [] == out;
        k := k + 1;
      } else {
        PutChar(c);
      }
    }

    /** `format_string_loop`, up to where it passes the terminator of the format, if it does. */
    method FormatStringLoop(f: seq<char>, args: nat -> Arg) returns (overrun: bool)
      requires Valid()
      modifies this`pos, this`out, buffer
      ensures Valid() && out == old(out) + Format(f, 0, args, 0).text && overrun == Format(f, 0, args, 0).overrun
    {
      hide Valid, Conversion, ParseSpec;
      var i, k := 0, 0;
      while i < |f|
        invariant 0 <= i <= |f| && Valid() && Format(f, i, args, k).overrun == Format(f, 0, args, 0).overrun
        invariant out + Format(f, i, args, k).text == old(out) + Format(f, 0, args, 0).text
      {
        if f[i] != '%' {
          PutChar(f[i]);
          i := i + 1;
        } else {
          if i + 1 >= |f| {
            return false;
          }
          var spec := ParseSpecifier(f, i + 1, args, k);
          if spec == None {
            return false;
          }
          var s := spec.value;
          if s.next >= |f| {
            PutChar(NUL);
            return true;
          }
          k := PutConversion(f[s.next], s, args);
          i := s.next + 1;
        }
      }
      return false;
    }
  }

  lemma ValueRange(bits: u64, signed: bool, flags: Flags)
    ensures Abs(ArgValue(bits, signed, flags)) < 0x1_0000_0000_0000_0000
  {
  }

  lemma ConversionIs(c: char, s: Spec, bits: u64)
    ensures var value := ArgValue(bits, IsSigned(c), s.flags);
      IntegerConversion(c, s, bits) == Integer(Abs(value), value < 0, BaseOf(c), s.precision, s.width, IntegerFlags(c, s.flags))
    ensures s.width < WORD_MODULUS && s.precision < WORD_MODULUS ==> s.width < 0x1_0000_0000 && s.precision < 0x1_0000_0000
  {
  }

  /** The base of a specifier, and the flags as it adjusts them. */
  method IntegerFormat(c: char, flags0: Flags) returns (base: nat, flags: Flags)
    requires IsInteger(c)
    ensures base == BaseOf(c) && flags == IntegerFlags(c, flags0)
  {
    base := BaseOf(c);
    hide BaseOf, IsSigned;
    var hash, zeropad, plus, space := flags0.hash, flags0.zeropad, flags0.plus, flags0.space;
    if base == DECIMAL {
      hash := false;
    }
    if flags0.precision {
      zeropad := false;
    }
    if !IsSigned(c) {
      plus, space := false, false;
    }
    flags := flags0.(hash := hash, uppercase := c == 'X', zeropad := zeropad, plus := plus, space := space);
  }

  /** A specification, parsed with the format pointer moving along. */
  method ParseSpecifier(f: seq<char>, i: nat, args: nat -> Arg, k: nat) returns (spec: Option<Spec>)
    requires i < |f|
    ensures spec == ParseSpec(f, i, args, k)
    ensures spec.Some? ==> spec.value.width < WORD_MODULUS && spec.value.precision < WORD_MODULUS
  {
    hide ParseFlags, Atou, ParseLength;
    var flags, j := FlagLoop(f, i);
    var s := Spec(flags, 0, 0, j, k);
    if IsDigit(CharAt(f, j)) {
      var width, next := NumberLoop(f, j);
      s := s.(width := width, next := next);
    } else if CharAt(f, j) == '*' {
      var w := AsInt32(args(s.arg).bits);
      if w < 0 {
        s := s.(flags := s.flags.(left := true), width := -w);
      } else {
        s := s.(width := w);
      }
      s := s.(arg := s.arg + 1);
      if s.next + 1 >= |f| {
        return None;
      }
      s := s.(next := s.next + 1);
    }
    assert ParseWidth(f, Spec(flags, 0, 0, j, k), args) == Some(s);
    hide ParseWidth;
    spec := PrecisionPart(f, s, args);
    if spec == None {
      return;
    }
    spec := LengthPart(f, spec.value);
  }

  /** `parse_flags`. */
  method FlagLoop(f: seq<char>, i: nat) returns (flags: Flags, j: nat)
    requires i <= |f|
    ensures (flags, j) == ParseFlags(f, i, NO_FLAGS)
  {
    flags, j := NO_FLAGS, i;
    while j < |f| && IsFlag(f[j])
      invariant i <= j <= |f| && ParseFlags(f, j, flags) == ParseFlags(f, i, NO_FLAGS)
    {
      flags := SetFlag(flags, f[j]);
      j := j + 1;
    }
  }

  /** `atou_`. */
  method NumberLoop(f: seq<char>, i: nat) returns (n: nat, j: nat)
    requires i <= |f|
    ensures (n, j) == Atou(f, i, 0) && n < WORD_MODULUS
  {
    n, j := 0, i;
    while j < |f| && IsDigit(f[j])
      invariant i <= j <= |f| && n < WORD_MODULUS && Atou(f, j, n) == Atou(f, i, 0)
    {
      n := (n * 10 + (f[j] as int - '0' as int)) % WORD_MODULUS;
      j := j + 1;
    }
  }

  method PrecisionPart(f: seq<char>, s0: Spec, args: nat -> Arg) returns (spec: Option<Spec>)
    requires s0.next <= |f| && s0.precision == 0
    ensures spec == ParsePrecision(f, s0, args)
    ensures spec.Some? ==> spec.value.width == s0.width && spec.value.precision < WORD_MODULUS
  {
    hide Atou;
    var s := s0;
    if CharAt(f, s.next) == '.' {
      s := s.(flags := s.flags.(precision := true));
      if s.next + 1 >= |f| {
        return None;
      }
      s := s.(next := s.next + 1);
      if IsDigit(CharAt(f, s.next)) {
        var n, j := NumberLoop(f, s.next);
        s := s.(precision := n, next := j);
      } else if CharAt(f, s.next) == '*' {
        var p := AsInt32(args(s.arg).bits);
        s := s.(precision := if p > 0 then p else 0, arg := s.arg + 1);
        if s.next + 1 >= |f| {
          return None;
        }
        s := s.(next := s.next + 1);
      }
    }
    return Some(s);
  }

  method LengthPart(f: seq<char>, s0: Spec) returns (spec: Option<Spec>)
    requires s0.next <= |f|
    ensures spec == ParseLength(f, s0)
    ensures spec.Some? ==> spec.value.width == s0.width && spec.value.precision == s0.precision
  {
    var s := s0;
    var c := CharAt(f, s.next);
    if c == 'l' {
      s := s.(flags := s.flags.(long := true));
      if s.next + 1 >= |f| {
        return None;
      }
      s := s.(next := s.next + 1);
      if f[s.next] == 'l' {
        s := s.(flags := s.flags.(longLong := true));
        if s.next + 1 >= |f| {
          return None;
        }
        s := s.(next := s.next + 1);
      }
    } else if c == 'h' {
      s := s.(flags := s.flags.(short := true));
      if s.next + 1 >= |f| {
        return None;
      }
      s := s.(next := s.next + 1);
      if f[s.next] == 'h' {
        s := s.(flags := s.flags.(char_ := true));
        if s.next + 1 >= |f| {
          return None;
        }
        s := s.(next := s.next + 1);
      }
    } else if c == 't' || c == 'j' || c == 'z' {
      s := s.(flags := s.flags.(long := true));
      if s.next + 1 >= |f| {
        return None;
      }
      s := s.(next := s.next + 1);
    }
    return Some(s);
  }

  /** `vsnprintf`: the count does not depend on the size; the buffer holds the beginning of the text and a
      terminator, and nothing behind the size is touched. For a format that is cut off there is no count: by the time
      the printer passes its terminator the buffer holds the beginning of the text, and what follows depends on the
      memory behind. */
  method Vsnprintf(s: array<char>, n: nat, f: seq<char>, args: nat -> Arg) returns (count: Option<int>)
    requires n <= s.Length
    modifies s
    ensures var text, size := Format(f, 0, args, 0).text, if n > INT_MAX then INT_MAX else n;
      && count == (if CutOff(f) then None else Some(AsInt32(|text|)))
      && s[..] == if CutOff(f) then Shown(old(s[..]), text, size) else Terminated(old(s[..]), text, size)
  {
    CutOffExact(f, args);
    hide Format, AsInt32, CutOff;
    var output := new Gadget(s, n);
    var overrun := output.FormatStringLoop(f, args);
    ghost var text := Format(f, 0, args, 0).text;
    assert output.out == text by {
      assert [] + text == text;
    }
    if overrun {
      return None;
    }
    if output.maxChars != 0 {
      var nullCharPos := if output.pos < output.maxChars then output.pos else output.maxChars - 1;
      s[nullCharPos] := NUL;
    }
    count := Some(AsInt32(output.pos));
    SameInt(|text|);
  }

  lemma SameInt(n: nat)
    ensures AsInt32(n % WORD_MODULUS) == AsInt32(n)
  {
  }

  /** The buffer after a bounded print. */
  function Terminated(initial: seq<char>, text: seq<char>, size: nat): (r: seq<char>)
    requires size <= |initial|
    ensures |r| == |initial|
  {
    var shown := Shown(initial, text, size);
    var end := |text| % WORD_MODULUS;
    if size == 0 then shown else shown[if end < size then end else size - 1 := NUL]
  }

  /** Below 2^32 characters, a print to a buffer of size `size` leaves the first characters of the text, the
      terminator, and everything behind that as it was. */
  lemma TerminatedPrefix(initial: seq<char>, text: seq<char>, size: nat, k: nat)
    requires |text| < WORD_MODULUS && size <= |initial| && k < |initial|
    ensures var end := if |text| < size then |text| else size - 1;
      Terminated(initial, text, size)[k]
      == if size == 0 || k > end then initial[k] else if k == end then NUL else text[k]
  {
    ShownPrefix(initial, text, size, k);
    hide Shown;
  }

  /** The digit loop of `print_integer`. */
  method PutDigits(buf: array<char>, value: nat, base: nat, uppercase: bool) returns (len: nat)
    requires buf.Length == BUFFER_SIZE && value != 0 && 2 <= base <= 16
    modifies buf
    ensures len <= BUFFER_SIZE && buf[..len] == Digits(value, base, uppercase, BUFFER_SIZE)
  {
    hide Digits, DigitChar;
    len := 0;
    var v: nat := value;
    while true
      invariant len < BUFFER_SIZE && v != 0
      invariant buf[..len] + Digits(v, base, uppercase, BUFFER_SIZE - len) == Digits(value, base, uppercase, BUFFER_SIZE)
      decreases BUFFER_SIZE - len
    {
      ghost var done := buf[..len];
      Arithmetic.Parts(v, base);
      var d, rest: nat := v % base, v / base;
      DigitsStep(v, base, uppercase, BUFFER_SIZE - len, rest);
      buf[len] := DigitChar(d, uppercase);
      assert buf[..len + 1] == done + [DigitChar(d, uppercase)];
      len := len + 1;
      v := rest;
      if v == 0 || len == BUFFER_SIZE {
        break;
      }
    }
  }

  lemma DigitsStep(v: nat, base: nat, uppercase: bool, room: nat, rest: nat)
    requires 2 <= base <= 16 && v != 0 && room != 0 && rest == v / base
    ensures 0 <= v % base < 16
    ensures Digits(v, base, uppercase, room) == [DigitChar(v % base, uppercase)] + Digits(rest, base, uppercase, room - 1)
    ensures rest == 0 || room == 1 ==> Digits(rest, base, uppercase, room - 1) == []
  {
  }

  /** Appends zeros up to a length, as far as they fit. */
  method PadBuffer(buf: array<char>, len0: nat, limit: nat) returns (len: nat)
    requires buf.Length == BUFFER_SIZE && len0 <= BUFFER_SIZE
    modifies buf
    ensures len <= BUFFER_SIZE && buf[..len] == PadZeros(old(buf[..len0]), limit)
  {
    len := len0;
    while len < limit && len < BUFFER_SIZE
      invariant len0 <= len <= BUFFER_SIZE && (len <= limit || len == len0)
      invariant buf[..len] == old(buf[..len0]) + Repeat('0', len - len0)
    {
      ghost var done := buf[..len];
      buf[len] := '0';
      assert buf[..len + 1] == done + ['0'];
      len := len + 1;
    }
  }

  /** The sign, if there is room for it. */
  method PutSign(buf: array<char>, len0: nat, negative: bool, flags: Flags) returns (len: nat)
    requires buf.Length == BUFFER_SIZE && len0 <= BUFFER_SIZE
    modifies buf
    ensures len <= BUFFER_SIZE && buf[..len] == AddSign(old(buf[..len0]), negative, flags)
  {
    hide Append;
    len := len0;
    if negative {
      len := PutIn(buf, len, '-');
    } else if flags.plus {
      len := PutIn(buf, len, '+');
    } else if flags.space {
      len := PutIn(buf, len, ' ');
    }
  }

  method PutIn(buf: array<char>, len0: nat, c: char) returns (len: nat)
    requires buf.Length == BUFFER_SIZE && len0 <= BUFFER_SIZE
    modifies buf
    ensures len <= BUFFER_SIZE && buf[..len] == Append(old(buf[..len0]), c)
  {
    len := len0;
    if len < BUFFER_SIZE {
      buf[len] := c;
      len := len + 1;
    }
  }

  /** The prefix, for which padding zeros are taken back. */
  method PutPrefix(buf: array<char>, len0: nat, unpaddedLen: nat, base: nat, precision: nat, width: nat, flags: Flags) returns (len: nat)
    requires buf.Length == BUFFER_SIZE && unpaddedLen <= len0 <= BUFFER_SIZE
    modifies buf
    ensures len <= BUFFER_SIZE
    ensures buf[..len] == AddPrefix(TakeBack(old(buf[..len0]), unpaddedLen, base, precision, width, flags), base, flags)
  {
    hide Append;
    len := len0;
    if !flags.precision && len != 0 && (len == precision || len == width) {
      if unpaddedLen < len {
        len := len - 1;
      }
      if len != 0 && (base == HEX || base == BINARY) && unpaddedLen < len {
        len := len - 1;
      }
    }
    assert buf[..len] == TakeBack(old(buf[..len0]), unpaddedLen, base, precision, width, flags);
    hide TakeBack;
    if base == HEX && !flags.uppercase {
      len := PutIn(buf, len, 'x');
    } else if base == HEX && flags.uppercase {
      len := PutIn(buf, len, 'X');
    } else if base == BINARY {
      len := PutIn(buf, len, 'b');
    }
    len := PutIn(buf, len, '0');
  }

  lemma IntegerParts(value: nat, negative: bool, base: nat, precision: nat, width: nat, flags: Flags)
    requires 2 <= base <= 16
    ensures Integer(value, negative, base, precision, width, flags)
      == Finalized(if value == 0 then (if flags.precision then [] else ['0']) else Digits(value, base, flags.uppercase, BUFFER_SIZE),
                   negative, base, precision, width, ZeroFlags(value, base, flags))
  {
    assert Digits(0, base, flags.uppercase, BUFFER_SIZE) == [];
    hide Digits, Finalized;
  }

  lemma CountOn(n: nat)
    ensures (n % WORD_MODULUS + 1) % WORD_MODULUS == (n + 1) % WORD_MODULUS
  {
  }

  lemma ReverseNext(buf: seq<char>, len: nat)
    requires len < |buf|
    ensures Reverse(buf[len..]) == Reverse(buf[len + 1..]) + [buf[len]]
  {
    assert buf[len..][1..] == buf[len + 1..];
  }

  lemma Distance(a: nat, n: nat)
    requires n < WORD_MODULUS
    ensures ((a + n) % WORD_MODULUS - a % WORD_MODULUS) % WORD_MODULUS == n
  {
  }

  lemma NextDistance(p: nat, s: nat)
    requires (p - s) % WORD_MODULUS < WORD_MODULUS - 1
    ensures ((p + 1) % WORD_MODULUS - s) % WORD_MODULUS == (p - s) % WORD_MODULUS + 1
  {
  }
}
