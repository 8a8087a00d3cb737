/**
 The text that the bounded printer produces (`src/libc/printf.c`), as functions of the format and the
 arguments. `PrintfGadget` writes it character by character.
 */
module PrintfText {
  import opened Words

  /** The size of the conversion buffer. */
  const BUFFER_SIZE: nat := 32

  const BINARY: nat := 2
  const OCTAL: nat := 8
  const DECIMAL: nat := 10
  const HEX: nat := 16

  const NUL: char := 0 as char

  datatype Flags = Flags(
    zeropad: bool, left: bool, plus: bool, space: bool, hash: bool, uppercase: bool,
    char_: bool, short: bool, long: bool, longLong: bool, precision: bool, pointer: bool)

  const NO_FLAGS: Flags := Flags(false, false, false, false, false, false, false, false, false, false, false, false)

  function Repeat(c: char, n: int): (s: seq<char>)
    ensures |s| == if n < 0 then 0 else n
    ensures forall i :: 0 <= i < |s| ==> s[i] == c
  {
    if n <= 0 then [] else Repeat(c, n - 1) + [c]
  }

  function Reverse(s: seq<char>): (r: seq<char>)
    ensures |r| == |s|
    ensures forall i :: 0 <= i < |s| ==> r[i] == s[|s| - 1 - i]
  {
    if s == [] then [] else Reverse(s[1..]) + [s[0]]
  }

  /** `out_rev_`: the characters in reverse, padded with blanks. */
  function OutRev(buf: seq<char>, width: nat, flags: Flags): seq<char> {
    var text := Reverse(buf);
    if flags.left then text + Repeat(' ', width - |text|)
    else if flags.zeropad then text
    else Repeat(' ', width - |text|) + text
  }

  // ---- Integers

  function DigitChar(d: nat, uppercase: bool): char
    requires d < 16
  {
    if d < 10 then ('0' as int + d) as char else ((if uppercase then 'A' as int else 'a' as int) + (d - 10)) as char
  }

  /** The digits of a number, least significant first, as far as they fit. */
  function Digits(value: nat, base: nat, uppercase: bool, room: nat): (r: seq<char>)
    requires 2 <= base <= 16
    ensures |r| <= room
    decreases room
  {
    if value == 0 || room == 0 then []
    else [DigitChar(value % base, uppercase)] + Digits(value / base, base, uppercase, room - 1)
  }

  /** Zeros are appended (the buffer is reversed) up to a length. */
  function PadZeros(buf: seq<char>, length: nat): (r: seq<char>)
    requires |buf| <= BUFFER_SIZE
    ensures |r| <= BUFFER_SIZE && |buf| <= |r| && r[..|buf|] == buf
  {
    buf + Repeat('0', (if length < BUFFER_SIZE then length else BUFFER_SIZE) - |buf|)
  }

  function Append(buf: seq<char>, c: char): (r: seq<char>)
    requires |buf| <= BUFFER_SIZE
    ensures |r| <= BUFFER_SIZE && |buf| <= |r| && r[..|buf|] == buf
  {
    if |buf| < BUFFER_SIZE then buf + [c] else buf
  }

  /** Takes back padding zeros to make room for a prefix. */
  function TakeBack(buf: seq<char>, unpadded: nat, base: nat, precision: nat, width: nat, flags: Flags): (r: seq<char>)
    requires unpadded <= |buf| <= BUFFER_SIZE
    ensures unpadded <= |r| <= |buf| && r == buf[..|r|]
  {
    if !flags.precision && |buf| != 0 && (|buf| == precision || |buf| == width) then
      var n := if unpadded < |buf| then |buf| - 1 else |buf|;
      buf[..if n != 0 && (base == HEX || base == BINARY) && unpadded < n then n - 1 else n]
    else buf
  }

  /** The letter and the zero of a prefix. */
  function AddPrefix(buf: seq<char>, base: nat, flags: Flags): (r: seq<char>)
    requires |buf| <= BUFFER_SIZE
    ensures |r| <= BUFFER_SIZE && |buf| <= |r| && r[..|buf|] == buf
  {
    var lettered := if base == HEX then Append(buf, if flags.uppercase then 'X' else 'x')
                    else if base == BINARY then Append(buf, 'b') else buf;
    Append(lettered, '0')
  }

  function AddSign(buf: seq<char>, negative: bool, flags: Flags): (r: seq<char>)
    requires |buf| <= BUFFER_SIZE
    ensures |r| <= BUFFER_SIZE
  {
    if negative then Append(buf, '-') else if flags.plus then Append(buf, '+') else if flags.space then Append(buf, ' ') else buf
  }

  /** The field width that zeros fill: a sign takes one column of it. */
  function ZeroWidth(negative: bool, width: nat, flags: Flags): nat {
    if !flags.left && width != 0 && flags.zeropad && (negative || flags.plus || flags.space) then width - 1 else width
  }

  /** The digits with leading zeros, still reversed. */
  function Padded(buf: seq<char>, negative: bool, precision: nat, width: nat, flags: Flags): (r: seq<char>)
    requires |buf| <= BUFFER_SIZE
    ensures |buf| <= |r| <= BUFFER_SIZE && r[..|buf|] == buf
  {
    PadZeros(if !flags.left && flags.zeropad then PadZeros(buf, ZeroWidth(negative, width, flags)) else buf, precision)
  }

  /** The digits with leading zeros and prefix, still reversed. */
  function Prefixed(buf: seq<char>, negative: bool, base: nat, precision: nat, width: nat, flags: Flags): (r: seq<char>)
    requires |buf| <= BUFFER_SIZE
    ensures |buf| <= |r| <= BUFFER_SIZE && r[..|buf|] == buf
  {
    var padded := Padded(buf, negative, precision, width, flags);
    var hash := flags.hash && !(base == OCTAL && |padded| > |buf|);
    if hash || flags.pointer
    then AddPrefix(TakeBack(padded, |buf|, base, precision, ZeroWidth(negative, width, flags), flags), base, flags)
    else padded
  }

  /** `print_integer_finalization`. */
  function Finalized(buf: seq<char>, negative: bool, base: nat, precision: nat, width: nat, flags: Flags): seq<char>
    requires |buf| <= BUFFER_SIZE
  {
    OutRev(AddSign(Prefixed(buf, negative, base, precision, width, flags), negative, flags),
           ZeroWidth(negative, width, flags), flags)
  }

  /** The digits that `print_integer` starts from. */
  function Numeral(value: nat, base: nat, flags: Flags): (r: seq<char>)
    requires 2 <= base <= 16
    ensures |r| <= BUFFER_SIZE
  {
    if value == 0 && !flags.precision then ['0'] else Digits(value, base, flags.uppercase, BUFFER_SIZE)
  }

  /** Zero has no prefix, except an octal zero of precision zero. */
  function ZeroFlags(value: nat, base: nat, flags: Flags): Flags {
    if value == 0 && (!flags.precision || base == HEX) then flags.(hash := false) else flags
  }

  /** `print_integer`. */
  function Integer(value: nat, negative: bool, base: nat, precision: nat, width: nat, flags: Flags): seq<char>
    requires 2 <= base <= 16
  {
    Finalized(Numeral(value, base, flags), negative, base, precision, width, ZeroFlags(value, base, flags))
  }

  // ---- Formats

  /** One variable argument: its 64 bits, and the string it points to, if any. */
  datatype Arg = Arg(bits: u64, text: Option<seq<char>>)

  function AsInt64(x: u64): int {
    if x < 0x8000_0000_0000_0000 then x else x - SIZE_MODULUS
  }

  function AsInt16(x: nat): int {
    var low := x % 0x1_0000;
    if low < 0x8000 then low else low - 0x1_0000
  }

  function AsInt8(x: nat): int {
    var low := x % 0x100;
    if low < 0x80 then low else low - 0x100
  }

  /** The format as a C string: the terminator follows the last character. */
  function CharAt(f: seq<char>, i: nat): char {
    if i < |f| then f[i] else NUL
  }

  predicate IsDigit(c: char) {
    '0' <= c <= '9'
  }

  predicate IsFlag(c: char) {
    c == '0' || c == '-' || c == '+' || c == ' ' || c == '#'
  }

  function SetFlag(flags: Flags, c: char): Flags {
    if c == '0' then flags.(zeropad := true) else if c == '-' then flags.(left := true)
    else if c == '+' then flags.(plus := true) else if c == ' ' then flags.(space := true) else flags.(hash := true)
  }

  /** `parse_flags`. */
  function ParseFlags(f: seq<char>, i: nat, flags: Flags): (r: (Flags, nat))
    requires i <= |f|
    ensures i <= r.1 <= |f|
    decreases |f| - i
  {
    if i < |f| && IsFlag(f[i]) then ParseFlags(f, i + 1, SetFlag(flags, f[i])) else (flags, i)
  }

  /** `atou_`, on 32-bit words. */
  function Atou(f: seq<char>, i: nat, n: nat): (r: (nat, nat))
    requires i <= |f|
    ensures i <= r.1 <= |f|
    ensures n < WORD_MODULUS ==> r.0 < WORD_MODULUS
    decreases |f| - i
  {
    if i < |f| && IsDigit(f[i]) then Atou(f, i + 1, (n * 10 + (f[i] as int - '0' as int)) % WORD_MODULUS) else (n, i)
  }

  /** A conversion specification up to its specifier; `None` when the format ends first. */
  datatype Spec = Spec(flags: Flags, width: nat, precision: nat, next: nat, arg: nat)

  /** Moves past one character; at the end of the format everything stops. */
  function Advance(f: seq<char>, s: Spec): (r: Option<Spec>)
    requires s.next < |f|
    ensures r.Some? ==> r.value == s.(next := s.next + 1) && r.value.next < |f|
  {
    if s.next + 1 < |f| then Some(s.(next := s.next + 1)) else None
  }

  function ParseWidth(f: seq<char>, s: Spec, args: nat -> Arg): (r: Option<Spec>)
    requires s.next <= |f|
    ensures r.Some? ==> s.next <= r.value.next <= |f|
  {
    if IsDigit(CharAt(f, s.next)) then
      var (n, j) := Atou(f, s.next, 0);
      Some(s.(width := n, next := j))
    else if CharAt(f, s.next) == '*' then
      var w := AsInt32(args(s.arg).bits);
      Advance(f, s.(width := if w < 0 then -w else w, flags := s.flags.(left := s.flags.left || w < 0), arg := s.arg + 1))
    else Some(s)
  }

  function ParsePrecision(f: seq<char>, s: Spec, args: nat -> Arg): (r: Option<Spec>)
    requires s.next <= |f|
    ensures r.Some? ==> s.next <= r.value.next <= |f|
  {
    if CharAt(f, s.next) == '.' then
      match Advance(f, s.(flags := s.flags.(precision := true)))
      case None => None
      case Some(t) =>
        if IsDigit(CharAt(f, t.next)) then
          var (n, j) := Atou(f, t.next, 0);
          Some(t.(precision := n, next := j))
        else if CharAt(f, t.next) == '*' then
          var p := AsInt32(args(t.arg).bits);
          Advance(f, t.(precision := if p > 0 then p else 0, arg := t.arg + 1))
        else Some(t)
    else Some(s)
  }

  /** The length modifiers; `ptrdiff_t`, `intmax_t` and `size_t` are as long as `long`. */
  function ParseLength(f: seq<char>, s: Spec): (r: Option<Spec>)
    requires s.next <= |f|
    ensures r.Some? ==> s.next <= r.value.next <= |f|
  {
    var c := CharAt(f, s.next);
    if c == 'l' then
      match Advance(f, s.(flags := s.flags.(long := true)))
      case None => None
      case Some(t) => if f[t.next] == 'l' then Advance(f, t.(flags := t.flags.(longLong := true))) else Some(t)
    else if c == 'h' then
      match Advance(f, s.(flags := s.flags.(short := true)))
      case None => None
      case Some(t) => if f[t.next] == 'h' then Advance(f, t.(flags := t.flags.(char_ := true))) else Some(t)
    else if c == 't' || c == 'j' || c == 'z' then Advance(f, s.(flags := s.flags.(long := true)))
    else Some(s)
  }

  /** What follows a percent sign at `i - 1`. */
  function ParseSpec(f: seq<char>, i: nat, args: nat -> Arg, k: nat): (r: Option<Spec>)
    requires i < |f|
    ensures r.Some? ==> i <= r.value.next <= |f|
  {
    var (flags, j) := ParseFlags(f, i, NO_FLAGS);
    match ParseWidth(f, Spec(flags, 0, 0, j, k), args)
    case None => None
    case Some(s) =>
      match ParsePrecision(f, s, args)
      case None => None
      case Some(t) => ParseLength(f, t)
  }

  predicate IsInteger(c: char) {
    c == 'd' || c == 'i' || c == 'u' || c == 'x' || c == 'X' || c == 'o' || c == 'b'
  }

  function BaseOf(c: char): (base: nat)
    ensures 2 <= base <= 16
  {
    if c == 'x' || c == 'X' then HEX else if c == 'o' then OCTAL else if c == 'b' then BINARY else DECIMAL
  }

  predicate IsSigned(c: char) {
    c == 'd' || c == 'i'
  }

  /** The value of a signed or unsigned argument of the given length. */
  function ArgValue(bits: u64, signed: bool, flags: Flags): int {
    if flags.longLong || flags.long then (if signed then AsInt64(bits) else bits)
    else if flags.char_ then (if signed then AsInt8(bits) else bits % 0x100)
    else if flags.short then (if signed then AsInt16(bits) else bits % 0x1_0000)
    else if signed then AsInt32(bits) else bits % WORD_MODULUS
  }

  function Abs(x: int): nat {
    if x < 0 then -x else x
  }

  /** The flags as the integer specifiers adjust them. */
  function IntegerFlags(c: char, flags: Flags): Flags {
    flags.(hash := flags.hash && BaseOf(c) != DECIMAL, uppercase := c == 'X', zeropad := flags.zeropad && !flags.precision,
           plus := flags.plus && IsSigned(c), space := flags.space && IsSigned(c))
  }

  function IntegerConversion(c: char, s: Spec, bits: u64): seq<char> {
    var value := ArgValue(bits, IsSigned(c), s.flags);
    Integer(Abs(value), value < 0, BaseOf(c), s.precision, s.width, IntegerFlags(c, s.flags))
  }

  function CharConversion(s: Spec, bits: u64): seq<char> {
    var c := (bits % 0x100) as char;
    if s.flags.left then [c] + Repeat(' ', s.width - 1) else Repeat(' ', s.width - 1) + [c]
  }

  const INT_MAX: nat := 0x7fff_ffff

  /** The length that the padding of a string counts on. */
  function StringLength(s: Spec, text: seq<char>): nat {
    var limit := if s.precision != 0 then s.precision else INT_MAX;
    var l := if |text| < limit then |text| else limit;
    if s.flags.precision && s.precision < l then s.precision else l
  }

  function StringConversion(s: Spec, arg: Arg): seq<char> {
    match arg.text
    case None => OutRev(")llun(", s.width, s.flags)
    case Some(text) =>
      var shown := if s.flags.precision && s.precision < |text| then text[..s.precision] else text;
      var padding := Repeat(' ', s.width - StringLength(s, text));
      if s.flags.left then shown + padding else padding + shown
  }

  function PointerConversion(s: Spec, bits: u64): seq<char> {
    var flags := s.flags.(zeropad := true, pointer := true);
    if bits == 0 then OutRev(")lin(", 18, flags) else Integer(bits, false, HEX, s.precision, 18, flags)
  }

  /** The conversion selected by the specifier; the stores of `%n` are not modelled. */
  function Conversion(c: char, s: Spec, args: nat -> Arg): (r: (seq<char>, nat))
  {
    if IsInteger(c) then (IntegerConversion(c, s, args(s.arg).bits), s.arg + 1)
    else if c == 'c' then (CharConversion(s, args(s.arg).bits), s.arg + 1)
    else if c == 's' then (StringConversion(s, args(s.arg)), s.arg + 1)
    else if c == 'p' then (PointerConversion(s, args(s.arg).bits), s.arg + 1)
    else if c == 'n' then ([], s.arg + 1)
    else ([c], s.arg)
  }

  /** The text of a format, and whether its terminator is passed: a specification cut off after its flags, its
      width or its precision prints the terminator and reads on behind it. */
  datatype Output = Output(text: seq<char>, overrun: bool)

  function Format(f: seq<char>, i: nat, args: nat -> Arg, k: nat): (r: Output)
    requires i <= |f|
    decreases |f| - i
  {
    if i >= |f| then Output([], false)
    else if f[i] != '%' then
      var rest := Format(f, i + 1, args, k);
      Output([f[i]] + rest.text, rest.overrun)
    else if i + 1 >= |f| then Output([], false)
    else
      match ParseSpec(f, i + 1, args, k)
      case None => Output([], false)
      case Some(s) =>
        if s.next >= |f| then Output([NUL], true)
        else
          var (text, k') := Conversion(f[s.next], s, args);
          var rest := Format(f, s.next + 1, args, k');
          Output(text + rest.text, rest.overrun)
  }

  // ---- Formats that are cut off

  /** Where in a format a scan is that looks at its characters alone. */
  datatype Mode = Text | Percent | InFlags | InWidth | WidthStar | Point | InPrecision | PrecisionStar | AfterL | AfterH | Modified

  /** After the length modifiers have begun, and after the precision. */
  function LengthMode(c: char): Mode {
    if c == 'l' then AfterL else if c == 'h' then AfterH else if c == 't' || c == 'j' || c == 'z' then Modified else Text
  }

  function PrecisionMode(c: char): Mode {
    if c == '.' then Point else LengthMode(c)
  }

  function NextMode(m: Mode, c: char): Mode {
    match m
    case Text => if c == '%' then Percent else Text
    case Percent | InFlags =>
      if IsFlag(c) then InFlags else if IsDigit(c) then InWidth else if c == '*' then WidthStar else PrecisionMode(c)
    case InWidth => if IsDigit(c) then InWidth else PrecisionMode(c)
    case WidthStar => PrecisionMode(c)
    case Point => if IsDigit(c) then InPrecision else if c == '*' then PrecisionStar else LengthMode(c)
    case InPrecision => if IsDigit(c) then InPrecision else LengthMode(c)
    case PrecisionStar => LengthMode(c)
    case AfterL => if c == 'l' then Modified else Text
    case AfterH => if c == 'h' then Modified else Text
    case Modified => Text
  }

  function ScanFormat(f: seq<char>, i: nat, m: Mode): Mode
    requires i <= |f|
    decreases |f| - i
  {
    if i == |f| then m else ScanFormat(f, i + 1, NextMode(m, f[i]))
  }

  /** The modes in which the end of the format is not noticed: flags and numbers are read without looking for it. */
  predicate Unnoticed(m: Mode) {
    m == InFlags || m == InWidth || m == InPrecision
  }

  /** The format ends inside a conversion specification, in its flags or in a number. Section 7.21.6.1 of ISO/IEC
      9899:2011 leaves such a format without meaning. */
  predicate CutOff(f: seq<char>) {
    Unnoticed(ScanFormat(f, 0, Text))
  }

  /** The parts of a specification that may come next. */
  datatype Part = WidthNext | PrecisionNext | LengthNext | SpecifierNext

  function FirstMode(part: Part, c: char): Mode {
    match part
    case WidthNext => if IsDigit(c) then InWidth else if c == '*' then WidthStar else PrecisionMode(c)
    case PrecisionNext => PrecisionMode(c)
    case LengthNext => LengthMode(c)
    case SpecifierNext => Text
  }

  /** The parser is at `j`, before a part; the scan gets from there to `end`, or is at the end without noticing. */
  ghost predicate Reached(f: seq<char>, end: Mode, j: nat, part: Part)
    requires j <= |f|
  {
    if j < |f| then end == ScanFormat(f, j + 1, FirstMode(part, f[j])) else Unnoticed(end)
  }

  /** The same after a parsing step, which stops when it notices the end. */
  ghost predicate Stepped(f: seq<char>, end: Mode, r: Option<Spec>, part: Part) {
    if r.Some? then r.value.next <= |f| && Reached(f, end, r.value.next, part) else !Unnoticed(end)
  }

  lemma {:induction false} FlagsScanned(f: seq<char>, i: nat, flags: Flags, m: Mode)
    requires i <= |f| && (m == Percent || m == InFlags) && (i == |f| ==> m == InFlags)
    ensures Reached(f, ScanFormat(f, i, m), ParseFlags(f, i, flags).1, WidthNext)
    decreases |f| - i
  {
    if i < |f| && IsFlag(f[i]) {
      FlagsScanned(f, i + 1, SetFlag(flags, f[i]), InFlags);
    }
  }

  /** A number is scanned to its end, in the mode of a width or of a precision. */
  lemma {:induction false} NumberScanned(f: seq<char>, i: nat, n: nat, m: Mode, part: Part)
    requires i <= |f| && (m, part) in {(InWidth, PrecisionNext), (InPrecision, LengthNext)}
    ensures Reached(f, ScanFormat(f, i, m), Atou(f, i, n).1, part)
    decreases |f| - i
  {
    if i < |f| && IsDigit(f[i]) {
      NumberScanned(f, i + 1, (n * 10 + (f[i] as int - '0' as int)) % WORD_MODULUS, m, part);
    }
  }

  lemma WidthScanned(f: seq<char>, end: Mode, s: Spec, args: nat -> Arg)
    requires s.next <= |f| && Reached(f, end, s.next, WidthNext)
    ensures Stepped(f, end, ParseWidth(f, s, args), PrecisionNext)
  {
    hide Atou, AsInt32;
    if IsDigit(CharAt(f, s.next)) {
      NumberScanned(f, s.next, 0, InWidth, PrecisionNext);
    }
  }

  lemma PrecisionScanned(f: seq<char>, end: Mode, s: Spec, args: nat -> Arg)
    requires s.next <= |f| && Reached(f, end, s.next, PrecisionNext)
    ensures Stepped(f, end, ParsePrecision(f, s, args), LengthNext)
  {
    hide Atou, AsInt32, ScanFormat;
    if s.next < |f| {
      ScanStep(f, s.next + 1, Point);
    }
    if s.next + 1 < |f| {
      ScanStep(f, s.next + 2, PrecisionStar);
      if IsDigit(f[s.next + 1]) {
        ScanStep(f, s.next + 1, InPrecision);
        NumberScanned(f, s.next + 1, 0, InPrecision, LengthNext);
      }
    }
  }

  lemma LengthScanned(f: seq<char>, end: Mode, s: Spec)
    requires s.next <= |f| && Reached(f, end, s.next, LengthNext)
    ensures Stepped(f, end, ParseLength(f, s), SpecifierNext)
  {
    hide ScanFormat;
    if s.next < |f| {
      var m := LengthMode(f[s.next]);
      ScanStep(f, s.next + 1, m);
      if s.next + 1 < |f| {
        ScanStep(f, s.next + 2, NextMode(m, f[s.next + 1]));
      }
    }
  }

  lemma ScanStep(f: seq<char>, i: nat, m: Mode)
    requires i <= |f|
    ensures ScanFormat(f, i, m) == if i == |f| then m else ScanFormat(f, i + 1, NextMode(m, f[i]))
  {
  }

  /** Scan and parser agree on where a specification ends, and on whether the end of the format is noticed. */
  lemma SpecScanned(f: seq<char>, i: nat, args: nat -> Arg, k: nat)
    requires i < |f|
    ensures Stepped(f, ScanFormat(f, i, Percent), ParseSpec(f, i, args, k), SpecifierNext)
  {
    hide ScanFormat, ParseFlags, ParseWidth, ParsePrecision, ParseLength, Reached, Unnoticed;
    var end := ScanFormat(f, i, Percent);
    FlagsScanned(f, i, NO_FLAGS, Percent);
    var (flags, j) := ParseFlags(f, i, NO_FLAGS);
    var s := Spec(flags, 0, 0, j, k);
    WidthScanned(f, end, s, args);
    var a := ParseWidth(f, s, args);
    if a.Some? {
      PrecisionScanned(f, end, a.value, args);
      var b := ParsePrecision(f, a.value, args);
      if b.Some? {
        LengthScanned(f, end, b.value);
      }
    }
  }

  lemma FormatIs(f: seq<char>, i: nat, args: nat -> Arg, k: nat)
    requires i <= |f|
    ensures Format(f, i, args, k).overrun <==>
      && i < |f|
      && if f[i] != '%' then Format(f, i + 1, args, k).overrun
         else
           && i + 1 < |f|
           && var s := ParseSpec(f, i + 1, args, k);
           && s.Some?
           && (s.value.next >= |f| || Format(f, s.value.next + 1, args, Conversion(f[s.value.next], s.value, args).1).overrun)
  {
    hide ParseSpec, Conversion;
  }

  lemma ScanIs(f: seq<char>, i: nat)
    requires i <= |f|
    ensures ScanFormat(f, i, Text) == if i == |f| then Text else ScanFormat(f, i + 1, if f[i] == '%' then Percent else Text)
    ensures ScanFormat(f, |f|, Percent) == Percent && !Unnoticed(Percent) && !Unnoticed(Text)
  {
  }

  lemma {:induction false} OverrunScanned(f: seq<char>, i: nat, args: nat -> Arg, k: nat)
    requires i <= |f|
    ensures Format(f, i, args, k).overrun <==> Unnoticed(ScanFormat(f, i, Text))
    decreases |f| - i
  {
    hide ParseSpec, Conversion, Format, ScanFormat, Unnoticed;
    FormatIs(f, i, args, k);
    ScanIs(f, i);
    if i < |f| {
      if f[i] != '%' {
        OverrunScanned(f, i + 1, args, k);
      } else if i + 1 < |f| {
        SpecScanned(f, i + 1, args, k);
        var s := ParseSpec(f, i + 1, args, k);
        if s.Some? && s.value.next < |f| {
          OverrunScanned(f, s.value.next + 1, args, Conversion(f[s.value.next], s.value, args).1);
        }
      }
    }
  }

  /** The printer passes the terminator of a format exactly when the scan of its characters ends in flags or in a
      number, whatever the arguments are. */
  lemma CutOffExact(f: seq<char>, args: nat -> Arg)
    ensures Format(f, 0, args, 0).overrun <==> CutOff(f)
  {
    OverrunScanned(f, 0, args, 0);
    hide Format;
  }

  /** The shortest failing inputs, and ends that are noticed. */
  lemma CutOffInputs()
    ensures CutOff("%-") && CutOff("%5") && CutOff("%.5")
    ensures !CutOff("%") && !CutOff("%*") && !CutOff("%.") && !CutOff("%5l") && !CutOff("%5d") && !CutOff("5")
  {
  }

  /** For these inputs the terminator is printed, and the printer goes on behind it. */
  lemma PassesTerminator(args: nat -> Arg)
    ensures Format("%5", 0, args, 0) == Output([NUL], true)
  {
    CutOffInputs();
    CutOffExact("%5", args);
    assert ParseFlags("%5", 1, NO_FLAGS) == (NO_FLAGS, 1) && Atou("%5", 1, 0).1 == 2;
    hide CutOff;
  }
}
