/**
 What each conversion prints for its argument, from the format on.
 */
module PrintfMeaning {
  import Arithmetic
  import opened Words
  import opened PrintfText
  import opened PrintfValue
  import opened PrintfSyntax

  // ---- Lengths

  /** The field width that zeros fill. */
  function ZerosTo(width: nat, signed: bool, zero: bool): nat {
    if zero && signed && width != 0 then width - 1 else width
  }

  /** The number of digits with leading zeros, before any is given up for a prefix. */
  function Filled(n: nat, width: nat, zero: bool, precision: nat): nat {
    Arithmetic.Max(n, Arithmetic.Max(if zero then Arithmetic.Min(width, 32) else 0, Arithmetic.Min(precision, 32)))
  }

  lemma PaddedLength(buf: seq<char>, negative: bool, precision: nat, width: nat, flags: Flags)
    requires |buf| <= BUFFER_SIZE
    ensures |Padded(buf, negative, precision, width, flags)|
      == Filled(|buf|, ZeroWidth(negative, width, flags), flags.zeropad && !flags.left, precision)
  {
    hide ZeroWidth;
  }

  lemma TakenLength(buf: seq<char>, unpadded: nat, base: nat, precision: nat, width: nat, flags: Flags)
    requires unpadded <= |buf| <= BUFFER_SIZE && (flags.precision || precision == 0)
    ensures |TakeBack(buf, unpadded, base, precision, width, flags)|
      == |buf| - (if !flags.precision && |buf| == width
                  then Arithmetic.Min(|buf| - unpadded, if base == 16 || base == 2 then 2 else 1) else 0)
  {
  }

  /** A number of the alternative form, given the length of its digits without and with leading zeros. */
  predicate Alternative(value: nat, base: nat, n: nat, filled: nat, flags: Flags) {
    (flags.hash && !(value == 0 && (!flags.precision || base == 16)) && !(base == 8 && filled > n)) || flags.pointer
  }

  /** The leading zeros given up for a prefix. */
  function GivenUp(base: nat, n: nat, filled: nat, width: nat, limited: bool): nat {
    if !limited && filled == width && filled > n then Arithmetic.Min(filled - n, if base == 16 || base == 2 then 2 else 1) else 0
  }

  lemma PrefixedExact(buf: seq<char>, negative: bool, base: nat, precision: nat, width: nat, flags: Flags, filled: nat, z: int)
    requires |buf| <= BUFFER_SIZE && (flags.precision || precision == 0)
    requires filled == Filled(|buf|, ZeroWidth(negative, width, flags), flags.zeropad && !flags.left, precision)
    requires var alternative := (flags.hash && !(base == 8 && filled > |buf|)) || flags.pointer;
      z == filled - |buf| - (if alternative then GivenUp(base, |buf|, filled, ZeroWidth(negative, width, flags), flags.precision) else 0)
    ensures |buf| <= filled && z >= 0
    ensures Prefixed(buf, negative, base, precision, width, flags) == buf + Repeat('0', z)
      + Reverse(if (flags.hash && !(base == 8 && filled > |buf|)) || flags.pointer then Tail(AlternativePrefix(base, flags), 32 - |buf| - z) else [])
  {
    hide *;
    FilledBound(|buf|, ZeroWidth(negative, width, flags), flags.zeropad && !flags.left, precision);
    Constants();
    PaddedLength(buf, negative, precision, width, flags);
    var z' := PaddedShape(buf, negative, precision, width, flags);
    PrefixedIs(buf, negative, base, precision, width, flags, z');
    GivenUpIs(base, |buf|, filled, ZeroWidth(negative, width, flags), flags.precision);
    if (flags.hash && !(base == 8 && filled > |buf|)) || flags.pointer {
      var padded := Padded(buf, negative, precision, width, flags);
      var taken := TakeBack(padded, |buf|, base, precision, ZeroWidth(negative, width, flags), flags);
      TakenLength(padded, |buf|, base, precision, ZeroWidth(negative, width, flags), flags);
      ZerosTaken(buf, padded, z', |taken|);
      var prefix := PrefixAdded(taken, base, flags);
    } else {
      NoPrefix(buf + Repeat('0', z'));
    }
  }

  lemma Constants()
    ensures BUFFER_SIZE == 32 && OCTAL == 8 && DECIMAL == 10 && HEX == 16 && BINARY == 2 && WORD_MODULUS == 0x1_0000_0000
    ensures SIZE_MODULUS == 0x1_0000_0000_0000_0000
  {
  }

  lemma FilledBound(n: nat, width: nat, zero: bool, precision: nat)
    ensures n <= Filled(n, width, zero, precision)
  {
  }

  lemma GivenUpIs(base: nat, n: nat, filled: nat, width: nat, limited: bool)
    requires n <= filled
    ensures GivenUp(base, n, filled, width, limited) == if !limited && filled == width
      then Arithmetic.Min(filled - n, if base == 16 || base == 2 then 2 else 1) else 0
    ensures 0 <= GivenUp(base, n, filled, width, limited) <= filled - n
  {
  }

  /** An integer, character by character. */
  lemma IntegerExact(value: u64, negative: bool, base: nat, precision: nat, width: nat, flags: Flags, filled: nat, z: int, w: nat)
    returns (a: nat, sign: seq<char>, prefix: seq<char>, b: nat)
    requires 2 <= base <= 16 && (flags.precision || precision == 0)
    requires w == ZerosTo(width, negative || flags.plus || flags.space, flags.zeropad && !flags.left)
    requires filled == Filled(|Numeral(value, base, flags)|, w, flags.zeropad && !flags.left, precision)
    requires var n := |Numeral(value, base, flags)|;
      z == filled - n - if Alternative(value, base, n, filled, flags) then GivenUp(base, n, filled, w, flags.precision) else 0
    ensures z >= 0
    ensures Integer(value, negative, base, precision, width, flags)
      == Repeat(' ', a) + (sign + prefix + Repeat('0', z) + Reverse(Numeral(value, base, flags))) + Repeat(' ', b)
    ensures sign == if |prefix| + z + |Numeral(value, base, flags)| < 32 then Sign(negative, flags) else []
    ensures prefix == if Alternative(value, base, |Numeral(value, base, flags)|, filled, flags)
                      then Tail(AlternativePrefix(base, flags), 32 - |Numeral(value, base, flags)| - z) else []
    ensures var rest := width - |sign| - |prefix| - z - |Numeral(value, base, flags)|;
      && a == (if flags.left || flags.zeropad then 0 else Arithmetic.Max(rest, 0))
      && b == (if flags.left then Arithmetic.Max(rest, 0) else 0)
  {
    hide *;
    Constants();
    IntegerIs(value, negative, base, precision, width, flags);
    var numeral, f := Numeral(value, base, flags), ZeroFlags(value, base, flags);
    ZeroFlagsExact(value, base, flags, |numeral|, filled);
    WidthSame(negative, width, f, flags);
    PrefixedExact(numeral, negative, base, precision, width, f, filled, z);
    prefix := if (f.hash && !(base == 8 && filled > |numeral|)) || f.pointer then Tail(AlternativePrefix(base, f), 32 - |numeral| - z) else [];
    var body := Prefixed(numeral, negative, base, precision, width, f);
    SignAdded(body, negative, f);
    sign := if |body| < BUFFER_SIZE then Sign(negative, f) else [];
    a, b := FieldShape(AddSign(body, negative, f), w, f);
    FourParts(numeral, Repeat('0', z), prefix, sign);
    ReverseRepeat('0', z);
    SameFlags(value, negative, base, z, flags);
  }

  lemma ZeroFlagsExact(value: nat, base: nat, flags: Flags, n: nat, filled: nat)
    ensures var f := ZeroFlags(value, base, flags);
      && f == flags.(hash := f.hash)
      && (((f.hash && !(base == 8 && filled > n)) || f.pointer) <==> Alternative(value, base, n, filled, flags))
  {
  }

  lemma WidthSame(negative: bool, width: nat, f: Flags, flags: Flags)
    requires f == flags.(hash := f.hash)
    ensures flags.left || !flags.zeropad ==> ZeroWidth(negative, width, f) == width
    ensures ZeroWidth(negative, width, f) == ZerosTo(width, negative || flags.plus || flags.space, flags.zeropad && !flags.left)
  {
  }

  // ---- Numerals

  /** Digits of a base, in the given case. */
  predicate AreDigits(s: seq<char>, base: nat, uppercase: bool) {
    forall i :: 0 <= i < |s| ==> IsDigitOf(s[i], base, uppercase)
  }

  predicate IsDigitOf(c: char, base: nat, uppercase: bool) {
    0 <= DigitValue(c) < Arithmetic.Min(base, 16) && c == (if uppercase then "0123456789ABCDEF" else "0123456789abcdef")[DigitValue(c)]
  }

  lemma DigitCharOf(d: nat, base: nat, uppercase: bool)
    requires d < base <= 16
    ensures IsDigitOf(DigitChar(d, uppercase), base, uppercase) && (DigitChar(d, uppercase) == '0' <==> d == 0)
  {
    DigitRound(d, uppercase);
    var c := (if uppercase then "0123456789ABCDEF" else "0123456789abcdef")[d];
    assert DigitChar(d, uppercase) == c by { hide DigitValue, IsDigitOf; }
    assert DigitValue(c) == d;
    hide DigitValue, DigitChar;
  }

  /** The digits of a number that fits start with no zero; those of one that does not fit fill the room. */
  lemma {:induction false} DigitsForm(value: nat, base: nat, uppercase: bool, room: nat)
    requires 2 <= base <= 16
    ensures var s := Digits(value, base, uppercase, room);
      && AreDigits(s, base, uppercase)
      && (0 < value < Pow(base, room) ==> s != [] && s[|s| - 1] != '0')
      && (value == 0 ==> s == [])
      && (value >= Pow(base, room) ==> |s| == room)
    decreases room
  {
    hide DigitChar, DigitValue, IsDigitOf;
    if value > 0 && room > 0 {
      DigitsForm(value / base, base, uppercase, room - 1);
      DigitCharOf(value % base, base, uppercase);
      QuotientBound(value, base, Pow(base, room - 1));
      TimesIs(base, Pow(base, room - 1));
      hide Times;
      var s, rest := Digits(value, base, uppercase, room), Digits(value / base, base, uppercase, room - 1);
      assert s == [DigitChar(value % base, uppercase)] + rest;
      if value / base == 0 {
        SmallMod(value, base);
      }
    }
  }

  lemma QuotientBound(v: nat, b: nat, p: nat)
    requires b >= 1
    ensures v < b * p <==> v / b < p
  {
    Arithmetic.Parts(v, b);
    if v / b < p {
      Arithmetic.MulMonotonic(v / b + 1, p, b);
    } else {
      Arithmetic.MulMonotonic(p, v / b, b);
    }
  }

  /** The numeral of a number: the digits that denote it, without leading zeros. */
  lemma NumeralText(value: u64, base: nat, flags: Flags)
    requires base == 2 || base == 8 || base == 10 || base == 16
    ensures var t := Reverse(Numeral(value, base, flags));
      && AreDigits(t, base, flags.uppercase)
      && Denote(t, base) == (if base == 2 then value % 0x1_0000_0000 else value)
      && (value == 0 ==> t == if flags.precision then "" else "0")
      && (value > 0 && (base != 2 || value < 0x1_0000_0000) ==> t != [] && t[0] != '0')
      && (base == 2 && value >= 0x1_0000_0000 ==> |t| == 32)
  {
    hide *;
    Constants();
    NumeralDenotes(value, base, flags, 0);
    assert Repeat('0', 0) + Reverse(Numeral(value, base, flags)) == Reverse(Numeral(value, base, flags));
    NumeralIs(value, base, flags);
    DigitsForm(value, base, flags.uppercase, BUFFER_SIZE);
    Capacity();
    ZeroNumeral(base, flags.uppercase);
    DigitsReversed(Digits(value, base, flags.uppercase, BUFFER_SIZE), base, flags.uppercase);
  }

  lemma ZeroNumeral(base: nat, uppercase: bool)
    requires 2 <= base
    ensures Reverse("0") == "0" && Reverse([]) == [] && AreDigits("0", base, uppercase)
  {
    assert (if uppercase then "0123456789ABCDEF" else "0123456789abcdef")[0] == '0' && DigitValue('0') == 0;
  }

  lemma DigitsReversed(s: seq<char>, base: nat, uppercase: bool)
    requires AreDigits(s, base, uppercase)
    ensures AreDigits(Reverse(s), base, uppercase) && |Reverse(s)| == |s| && (s != [] ==> Reverse(s)[0] == s[|s| - 1])
  {
    hide IsDigitOf;
  }

  // ---- Integers

  predicate ForInteger(c: char) {
    c == 'd' || c == 'i' || c == 'u' || c == 'x' || c == 'X' || c == 'o' || c == 'b'
  }

  /** The flags with which the digits of an integer are laid out. */
  function LayoutFlags(d: Directive, left: bool): Flags {
    var signed := d.specifier == 'd' || d.specifier == 'i';
    FlagsOf(d, left).(zeropad := '0' in d.flags && d.precision.None?, plus := '+' in d.flags && signed,
      space := ' ' in d.flags && signed, hash := '#' in d.flags && (d.specifier == 'x' || d.specifier == 'X' || d.specifier == 'o' || d.specifier == 'b'),
      uppercase := d.specifier == 'X')
  }

  /** The value that is printed, the base, and the layout. */
  lemma IntegerTaken(d: Directive, args: nat -> Arg, k: nat, base: nat, size: nat, low: nat, v: int)
    requires WellFormed(d) && ForInteger(d.specifier)
    requires base == match d.specifier case 'x' | 'X' => 16 case 'o' => 8 case 'b' => 2 case _ => 10
    requires size == match d.length case HH => 0x100 case H => 0x1_0000 case NoLength => 0x1_0000_0000 case _ => 0x1_0000_0000_0000_0000
    requires low == args(k + Stars(d)).bits % size
    requires v == if (d.specifier == 'd' || d.specifier == 'i') && 2 * low >= size then low - size else low
    ensures TextOf(d, args, k) == Integer(if v < 0 then -v else v, v < 0, base, PrecisionOf(d, args, k), WidthOf(d, args, k),
                                        LayoutFlags(d, LeftOf(d, args, k)))
    ensures (if v < 0 then -v else v) < 0x1_0000_0000_0000_0000
    ensures d.precision.None? ==> PrecisionOf(d, args, k) == 0
  {
    hide *;
    TextIs(d, args, k);
    var left, c := LeftOf(d, args, k), d.specifier;
    IntegerSelected(d, args, k);
    ValueTaken(d, args(k + Stars(d)).bits, left, size, low, v);
    FlagsTaken(d, left, base);
    assert Abs(v) == (if v < 0 then -v else v) by { AbsIs(v); }
    NoPrecision(d, args, k);
  }

  lemma AbsIs(v: int)
    ensures Abs(v) == if v < 0 then -v else v
  {
  }

  lemma NoPrecision(d: Directive, args: nat -> Arg, k: nat)
    requires WellFormed(d)
    ensures d.precision.None? ==> PrecisionOf(d, args, k) == 0
  {
    hide WellFormed;
  }

  lemma IntegerSelected(d: Directive, args: nat -> Arg, k: nat)
    requires WellFormed(d) && ForInteger(d.specifier)
    ensures var c, left := d.specifier, LeftOf(d, args, k);
      var v := ArgValue(args(k + Stars(d)).bits, IsSigned(c), FlagsOf(d, left));
      Conversion(c, Taken(d, args, k), args).0
      == Integer(Abs(v), v < 0, BaseOf(c), PrecisionOf(d, args, k), WidthOf(d, args, k), IntegerFlags(c, FlagsOf(d, left)))
  {
    hide Integer, ArgValue, IsSigned, FlagsOf, LeftOf, WidthOf, PrecisionOf, WellFormed, IntegerFlags, BaseOf, Abs, Stars;
  }

  lemma ValueTaken(d: Directive, bits: u64, left: bool, size: nat, low: nat, v: int)
    requires size == match d.length case HH => 0x100 case H => 0x1_0000 case NoLength => 0x1_0000_0000 case _ => 0x1_0000_0000_0000_0000
    requires low == bits % size && v == if (d.specifier == 'd' || d.specifier == 'i') && 2 * low >= size then low - size else low
    ensures ArgValue(bits, IsSigned(d.specifier), FlagsOf(d, left)) == v
    ensures (if v < 0 then -v else v) < 0x1_0000_0000_0000_0000
  {
    if size == 0x1_0000_0000_0000_0000 {
      SmallMod(bits, size);
    }
  }

  lemma FlagsTaken(d: Directive, left: bool, base: nat)
    requires ForInteger(d.specifier)
    requires base == match d.specifier case 'x' | 'X' => 16 case 'o' => 8 case 'b' => 2 case _ => 10
    ensures BaseOf(d.specifier) == base && IntegerFlags(d.specifier, FlagsOf(d, left)) == LayoutFlags(d, left)
  {
  }

  /** The prefix that the alternative form asks for. */
  function AskedPrefix(d: Directive, v: int): (form: seq<char>)
    ensures |form| <= 2
  {
    if '#' !in d.flags then ""
    else match d.specifier
      case 'x' => if v == 0 then "" else "0x"
      case 'X' => if v == 0 then "" else "0X"
      case 'b' => if v == 0 && d.precision.None? then "" else "0b"
      case 'o' => if v == 0 && d.precision.None? then "" else "0"
      case _ => ""
  }

  /** The sign that a value asks for; unsigned ones have none. */
  function AskedSign(d: Directive, v: int): seq<char> {
    if v < 0 then "-"
    else if d.specifier != 'd' && d.specifier != 'i' then ""
    else if '+' in d.flags then "+" else if ' ' in d.flags then " " else ""
  }

  /** The leading zeros: up to the precision if there is one, else up to the width if the flag asks for it, never
      more than 32 digits; a prefix of two characters takes the place of two of them. */
  function AskedZeros(n: nat, form: seq<char>, sign: seq<char>, d: Directive, left: bool, width: nat, precision: nat): nat {
    if d.precision.Some? then Arithmetic.Max(Arithmetic.Min(precision, 32) - n, 0)
    else if left || '0' !in d.flags then 0
    else
      var room := if sign != "" && width > 0 then width - 1 else width;
      if room > 32 then Arithmetic.Max(32 - n, 0)
      else Arithmetic.Max(room - n - if |form| == 2 then 2 else 0, 0)
  }

  lemma IntegerLaidOut(d: Directive, args: nat -> Arg, k: nat, base: nat, size: nat, low: nat, v: int, form: seq<char>)
    returns (a: nat, sign: seq<char>, prefix: seq<char>, z: nat, numeral: seq<char>, b: nat)
    requires WellFormed(d) && ForInteger(d.specifier)
    requires base == match d.specifier case 'x' | 'X' => 16 case 'o' => 8 case 'b' => 2 case _ => 10
    requires size == match d.length case HH => 0x100 case H => 0x1_0000 case NoLength => 0x1_0000_0000 case _ => 0x1_0000_0000_0000_0000
    requires low == args(k + Stars(d)).bits % size
    requires v == if (d.specifier == 'd' || d.specifier == 'i') && 2 * low >= size then low - size else low
    requires form == AskedPrefix(d, v)
    ensures TextOf(d, args, k) == Repeat(' ', a) + (sign + prefix + Repeat('0', z) + numeral) + Repeat(' ', b)
    ensures AreDigits(numeral, base, d.specifier == 'X')
    ensures var u := if v < 0 then -v else v;
      && Denote(numeral, base) == (if base == 2 then u % 0x1_0000_0000 else u)
      && (u == 0 ==> numeral == if d.precision.Some? then "" else "0")
      && (u > 0 && (base != 2 || u < 0x1_0000_0000) ==> numeral != [] && numeral[0] != '0')
      && (base == 2 && u >= 0x1_0000_0000 ==> |numeral| == 32)
    ensures z == AskedZeros(|numeral|, form, AskedSign(d, v), d, LeftOf(d, args, k), WidthOf(d, args, k), PrecisionOf(d, args, k))
    ensures |numeral| + z <= 32
    ensures if |form| == 1 && z > 0 then prefix == ""
            else |prefix| == Arithmetic.Min(|form|, 32 - |numeral| - z) && prefix == form[|form| - |prefix|..]
    ensures sign == if |prefix| + z + |numeral| < 32 then AskedSign(d, v) else ""
    ensures var rest := Arithmetic.Max(WidthOf(d, args, k) - |sign| - |prefix| - z - |numeral|, 0);
      && a == (if LeftOf(d, args, k) || ('0' in d.flags && d.precision.None?) then 0 else rest)
      && b == (if LeftOf(d, args, k) then rest else 0)
  {
    hide *;
    Constants();
    IntegerTaken(d, args, k, base, size, low, v);
    var u := if v < 0 then -v else v;
    var left, w, p := LeftOf(d, args, k), WidthOf(d, args, k), PrecisionOf(d, args, k);
    var flags := LayoutFlags(d, left);
    numeral := Reverse(Numeral(u, base, flags));
    NumeralText(u, base, flags);
    LayoutIs(d, left);
    var n := |numeral|;
    var room := ZerosTo(w, v < 0 || flags.plus || flags.space, flags.zeropad && !left);
    var filled := Filled(n, room, flags.zeropad && !left, p);
    var alternative := Alternative(u, base, n, filled, flags);
    ZerosAre(d, v, base, n, left, w, p, room, filled);
    z := filled - n - if alternative then GivenUp(base, n, filled, room, flags.precision) else 0;
    a, sign, prefix, b := IntegerExact(u, v < 0, base, p, w, flags, filled, z, room);
    PrefixIs(d, v, base, n, z, filled, left);
    SignIs(d, v, left);
  }

  /** An integer conversion prints blanks, a sign, a prefix, zeros, the digits of the argument in its base, and blanks.
      The argument is read at its length, in two's complement if the conversion is signed. Leading zeros go up to the
      precision, or to the width if the flag asks for it, but not beyond 32 digits; what does not fit into 32
      characters is cut off on the left. */
  lemma IntegerText(d: Directive, args: nat -> Arg, k: nat, base: nat, size: nat, low: nat, v: int, form: seq<char>, asked: seq<char>,
                    width: nat, precision: nat, left: bool)
    returns (a: nat, sign: seq<char>, prefix: seq<char>, z: nat, numeral: seq<char>, b: nat)
    requires WellFormed(d) && ForInteger(d.specifier)
    requires base == match d.specifier case 'x' | 'X' => 16 case 'o' => 8 case 'b' => 2 case _ => 10
    requires size == match d.length case HH => 0x100 case H => 0x1_0000 case NoLength => 0x1_0000_0000 case _ => 0x1_0000_0000_0000_0000
    requires low == args(k + Stars(d)).bits % size
    requires v == if (d.specifier == 'd' || d.specifier == 'i') && 2 * low >= size then low - size else low
    requires form == if '#' !in d.flags || (v == 0 && (d.precision.None? || base == 16)) then ""
                     else match d.specifier case 'x' => "0x" case 'X' => "0X" case 'b' => "0b" case 'o' => "0" case _ => ""
    requires asked == if v < 0 then "-" else if d.specifier != 'd' && d.specifier != 'i' then ""
                      else if '+' in d.flags then "+" else if ' ' in d.flags then " " else ""
    requires width == WidthOf(d, args, k) && precision == PrecisionOf(d, args, k) && left == LeftOf(d, args, k)
    ensures TextOf(d, args, k) == Repeat(' ', a) + (sign + prefix + Repeat('0', z) + numeral) + Repeat(' ', b)
    ensures AreDigits(numeral, base, d.specifier == 'X')
    ensures var u := if v < 0 then -v else v;
      && Denote(numeral, base) == (if base == 2 then u % 0x1_0000_0000 else u)
      && (u == 0 ==> numeral == if d.precision.Some? then "" else "0")
      && (u > 0 && (base != 2 || u < 0x1_0000_0000) ==> numeral != [] && numeral[0] != '0')
      && (base == 2 && u >= 0x1_0000_0000 ==> |numeral| == 32)
    ensures d.precision.Some? ==> z == Arithmetic.Max(Arithmetic.Min(precision, 32) - |numeral|, 0)
    ensures d.precision.None? && (left || '0' !in d.flags) ==> z == 0
    ensures d.precision.None? && !left && '0' in d.flags ==>
      var room := if asked != "" && width > 0 then width - 1 else width;
      z == if room > 32 then 32 - |numeral| else Arithmetic.Max(room - |numeral| - if |form| == 2 then 2 else 0, 0)
    ensures |numeral| + z <= 32
    ensures if |form| == 1 && z > 0 then prefix == ""
            else |prefix| == Arithmetic.Min(|form|, 32 - |numeral| - z) && prefix == form[|form| - |prefix|..]
    ensures sign == if |prefix| + z + |numeral| < 32 then asked else ""
    ensures var rest := Arithmetic.Max(width - |sign| - |prefix| - z - |numeral|, 0);
      && a == (if left || ('0' in d.flags && d.precision.None?) then 0 else rest)
      && b == (if left then rest else 0)
  {
    hide *;
    AskedAre(d, v);
    a, sign, prefix, z, numeral, b := IntegerLaidOut(d, args, k, base, size, low, v, form);
    AskedZerosAre(|numeral|, form, asked, d, left, width, precision);
  }

  lemma AskedAre(d: Directive, v: int)
    ensures AskedSign(d, v) == if v < 0 then "-" else if d.specifier != 'd' && d.specifier != 'i' then ""
                      else if '+' in d.flags then "+" else if ' ' in d.flags then " " else ""
    ensures AskedPrefix(d, v) == if '#' !in d.flags || (v == 0 && (d.precision.None? || d.specifier == 'x' || d.specifier == 'X')) then ""
                     else match d.specifier case 'x' => "0x" case 'X' => "0X" case 'b' => "0b" case 'o' => "0" case _ => ""
  {
  }

  lemma AskedZerosAre(n: nat, form: seq<char>, sign: seq<char>, d: Directive, left: bool, width: nat, precision: nat)
    requires n <= 32
    ensures var z := AskedZeros(n, form, sign, d, left, width, precision);
      if d.precision.Some? then z == Arithmetic.Max(Arithmetic.Min(precision, 32) - n, 0)
      else if left || '0' !in d.flags then z == 0
      else
        var room := if sign != "" && width > 0 then width - 1 else width;
        z == if room > 32 then 32 - n else Arithmetic.Max(room - n - if |form| == 2 then 2 else 0, 0)
  {
  }

  lemma LayoutIs(d: Directive, left: bool)
    ensures var f := LayoutFlags(d, left);
      && f.left == left && f.zeropad == ('0' in d.flags && d.precision.None?) && f.precision == d.precision.Some?
      && f.uppercase == (d.specifier == 'X')
  {
  }

  lemma SignIs(d: Directive, v: int, left: bool)
    requires v < 0 ==> d.specifier == 'd' || d.specifier == 'i'
    ensures Sign(v < 0, LayoutFlags(d, left)) == AskedSign(d, v)
  {
  }

  lemma ZerosAre(d: Directive, v: int, base: nat, n: nat, left: bool, w: nat, p: nat, room: nat, filled: nat)
    requires ForInteger(d.specifier) && n <= 32 && (d.precision.None? ==> p == 0)
    requires v < 0 ==> d.specifier == 'd' || d.specifier == 'i'
    requires base == match d.specifier case 'x' | 'X' => 16 case 'o' => 8 case 'b' => 2 case _ => 10
    requires var f := LayoutFlags(d, left);
      room == ZerosTo(w, v < 0 || f.plus || f.space, f.zeropad && !left) && filled == Filled(n, room, f.zeropad && !left, p)
    ensures var f := LayoutFlags(d, left);
      AskedZeros(n, AskedPrefix(d, v), AskedSign(d, v), d, left, w, p) + n <= 32
      && AskedZeros(n, AskedPrefix(d, v), AskedSign(d, v), d, left, w, p)
      == filled - n - if Alternative(if v < 0 then -v else v, base, n, filled, f) then GivenUp(base, n, filled, room, f.precision) else 0
    ensures n <= filled && (base == 8 ==> (AskedZeros(n, AskedPrefix(d, v), AskedSign(d, v), d, left, w, p) > 0 <==> filled > n))
  {
  }

  lemma PrefixIs(d: Directive, v: int, base: nat, n: nat, z: nat, filled: nat, left: bool)
    requires ForInteger(d.specifier) && n + z <= 32 && n <= filled
    requires base == match d.specifier case 'x' | 'X' => 16 case 'o' => 8 case 'b' => 2 case _ => 10
    requires base == 8 ==> (z > 0 <==> filled > n)
    ensures var f, form := LayoutFlags(d, left), AskedPrefix(d, v);
      var prefix := if Alternative(if v < 0 then -v else v, base, n, filled, f) then Tail(AlternativePrefix(base, f), 32 - n - z) else [];
      if |form| == 1 && z > 0 then prefix == ""
      else |prefix| == Arithmetic.Min(|form|, 32 - n - z) && prefix == form[|form| - |prefix|..]
  {
  }

  // ---- Characters, strings and pointers

  /** What a conversion other than an integer one prints, from its flags and its argument. */
  lemma OtherSelected(d: Directive, args: nat -> Arg, k: nat, s: Spec, arg: Arg)
    requires WellFormed(d)
    requires s == Spec(FlagsOf(d, LeftOf(d, args, k)), WidthOf(d, args, k), PrecisionOf(d, args, k), 0, k + Stars(d)) && arg == args(s.arg)
    ensures d.specifier == 'c' ==> TextOf(d, args, k) == CharConversion(s, arg.bits)
    ensures d.specifier == 's' ==> TextOf(d, args, k) == StringConversion(s, arg)
    ensures d.specifier == 'p' ==> TextOf(d, args, k) == PointerConversion(s, arg.bits)
    ensures d.specifier == 'n' ==> TextOf(d, args, k) == ""
    ensures !ForInteger(d.specifier) && d.specifier != 'c' && d.specifier != 's' && d.specifier != 'p' && d.specifier != 'n'
      ==> TextOf(d, args, k) == [d.specifier]
  {
    hide *;
    TextIs(d, args, k);
    TakenIs(d, args, k, s);
    Selected(d.specifier, s, args);
  }

  lemma Selected(c: char, s: Spec, args: nat -> Arg)
    ensures c == 'c' ==> Conversion(c, s, args).0 == CharConversion(s, args(s.arg).bits)
    ensures c == 's' ==> Conversion(c, s, args).0 == StringConversion(s, args(s.arg))
    ensures c == 'p' ==> Conversion(c, s, args).0 == PointerConversion(s, args(s.arg).bits)
    ensures c == 'n' ==> Conversion(c, s, args).0 == ""
    ensures !ForInteger(c) && c != 'c' && c != 's' && c != 'p' && c != 'n' ==> Conversion(c, s, args).0 == [c]
  {
    hide CharConversion, StringConversion, PointerConversion, IntegerConversion;
  }

  /** A character conversion prints the low eight bits of its argument, and blanks on the side asked for. */
  lemma CharText(d: Directive, args: nat -> Arg, k: nat, c: char, blanks: seq<char>)
    requires WellFormed(d) && d.specifier == 'c' && c == (args(k + Stars(d)).bits % 0x100) as char
    requires blanks == Repeat(' ', WidthOf(d, args, k) - 1)
    ensures TextOf(d, args, k) == if LeftOf(d, args, k) then [c] + blanks else blanks + [c]
  {
    OtherSelected(d, args, k, Taken(d, args, k), args(k + Stars(d)));
    hide TextOf, Format, Show, LeftOf, WidthOf, PrecisionOf, WellFormed, Stars;
  }

  /** A string conversion prints its argument, cut off at the precision, and blanks on the side asked for; without a
      precision they count on at most `INT_MAX` characters. A null pointer prints like the text "(null)", but is not
      cut off, and the zero flag takes away its blanks on the left. */
  lemma StringText(d: Directive, args: nat -> Arg, k: nat, text: Option<seq<char>>, shown: seq<char>, width: nat, precision: nat, counted: nat)
    requires WellFormed(d) && d.specifier == 's' && text == args(k + Stars(d)).text
    requires width == WidthOf(d, args, k) && precision == PrecisionOf(d, args, k)
    requires shown == match text
      case None => "(null)"
      case Some(t) => if d.precision.Some? && precision < |t| then t[..precision] else t
    requires counted == if text.Some? && d.precision.None? then Arithmetic.Min(|shown|, 0x7fff_ffff) else |shown|
    ensures TextOf(d, args, k) == if LeftOf(d, args, k) then shown + Repeat(' ', width - counted)
      else if text.None? && '0' in d.flags then shown
      else Repeat(' ', width - counted) + shown
  {
    hide *;
    var arg, left := args(k + Stars(d)), LeftOf(d, args, k);
    var s := Spec(FlagsOf(d, left), width, precision, 0, k + Stars(d));
    OtherSelected(d, args, k, s, arg);
    StringFlags(d, args, k, left);
    StringIs(s, arg, shown, counted);
  }

  lemma StringFlags(d: Directive, args: nat -> Arg, k: nat, left: bool)
    requires WellFormed(d)
    ensures var f := FlagsOf(d, left); f.left == left && f.zeropad == ('0' in d.flags) && f.precision == d.precision.Some?
    ensures d.precision.None? ==> PrecisionOf(d, args, k) == 0
  {
    hide WellFormed;
  }

  lemma StringIs(s: Spec, arg: Arg, shown: seq<char>, counted: nat)
    requires s.flags.precision || s.precision == 0
    requires shown == match arg.text
      case None => "(null)"
      case Some(t) => if s.flags.precision && s.precision < |t| then t[..s.precision] else t
    requires counted == if arg.text.Some? && !s.flags.precision then Arithmetic.Min(|shown|, 0x7fff_ffff) else |shown|
    ensures StringConversion(s, arg) == if s.flags.left then shown + Repeat(' ', s.width - counted)
      else if arg.text.None? && s.flags.zeropad then shown
      else Repeat(' ', s.width - counted) + shown
  {
    if arg.text.None? {
      assert Reverse(")llun(") == "(null)";
    } else {
      assert StringLength(s, arg.text.value) == counted;
    }
    hide Reverse, Repeat, StringLength;
  }

  /** Everything else that is no conversion prints itself, the percent sign among it. */
  lemma SelfText(d: Directive, args: nat -> Arg, k: nat)
    requires WellFormed(d) && !ForInteger(d.specifier) && d.specifier != 'c' && d.specifier != 's' && d.specifier != 'p' && d.specifier != 'n'
    ensures TextOf(d, args, k) == [d.specifier]
  {
    OtherSelected(d, args, k, Taken(d, args, k), args(k + Stars(d)));
    hide TextOf;
  }

  /** The flags with which the digits of a pointer are laid out. */
  function PointerFlags(d: Directive, left: bool): Flags {
    FlagsOf(d, left).(zeropad := true, pointer := true)
  }

  /** A pointer is printed in lower-case hexadecimal with its prefix, in a field of 18 characters that zeros fill
      unless it is left-adjusted; the given width counts for nothing, and the null pointer prints as "(nil)". */
  lemma PointerText(d: Directive, args: nat -> Arg, k: nat, bits: u64, precision: nat, left: bool, asked: seq<char>, room: nat)
    returns (sign: seq<char>, prefix: seq<char>, z: nat, numeral: seq<char>, b: nat)
    requires WellFormed(d) && d.specifier == 'p' && bits == args(k + Stars(d)).bits
    requires precision == PrecisionOf(d, args, k) && left == LeftOf(d, args, k)
    requires asked == if '+' in d.flags then "+" else if ' ' in d.flags then " " else ""
    requires room == if left then 0 else 18 - |asked|
    ensures bits == 0 ==> TextOf(d, args, k) == if left then "(nil)" + Repeat(' ', 13) else "(nil)"
    ensures bits > 0 ==>
      && TextOf(d, args, k) == sign + prefix + Repeat('0', z) + numeral + Repeat(' ', b)
      && AreDigits(numeral, 16, false) && Denote(numeral, 16) == bits && numeral[0] != '0' && 1 <= |numeral| <= 16
      && z == (if d.precision.None? then Arithmetic.Max(room - 2 - |numeral|, 0)
               else Arithmetic.Max(Arithmetic.Max(room, Arithmetic.Min(precision, 32)) - |numeral|, 0))
      && |prefix| == Arithmetic.Min(2, 32 - z - |numeral|) && prefix == "0x"[2 - |prefix|..]
      && sign == (if |prefix| + z + |numeral| < 32 then asked else "")
      && b == (if left then Arithmetic.Max(18 - |sign| - |prefix| - z - |numeral|, 0) else 0)
  {
    hide *;
    Constants();
    sign, prefix, z, numeral, b := "", "", 0, "", 0;
    var s := Spec(FlagsOf(d, left), WidthOf(d, args, k), precision, 0, k + Stars(d));
    var flags := PointerFlags(d, left);
    OtherSelected(d, args, k, s, args(k + Stars(d)));
    PointerIs(d, left, s, bits);
    StringFlags(d, args, k, left);
    if bits > 0 {
      numeral := Reverse(Numeral(bits, 16, flags));
      NumeralText(bits, 16, flags);
      NumeralFits(bits, flags);
      var n := |numeral|;
      var filled := Filled(n, ZerosTo(18, flags.plus || flags.space, flags.zeropad && !left), flags.zeropad && !left, precision);
      PointerLayout(d, left, n, precision, asked, room, filled, bits);
      z := filled - n - GivenUp(16, n, filled, ZerosTo(18, flags.plus || flags.space, flags.zeropad && !left), flags.precision);
      var a;
      a, sign, prefix, b := IntegerExact(bits, false, 16, precision, 18, flags, filled, z, ZerosTo(18, flags.plus || flags.space, flags.zeropad && !left));
      PointerPrefix(d, left, n, z);
      NoBlanks(sign + prefix + Repeat('0', z) + numeral + Repeat(' ', b));
    }
  }

  lemma PointerIs(d: Directive, left: bool, s: Spec, bits: u64)
    requires s.flags == FlagsOf(d, left)
    ensures PointerConversion(s, bits) == if bits > 0 then Integer(bits, false, 16, s.precision, 18, PointerFlags(d, left))
      else if left then "(nil)" + Repeat(' ', 13) else "(nil)"
  {
    hide *;
    var flags := PointerFlags(d, left);
    PointerDef(s, bits);
    PointerFlagsAre(d, left);
    assert Reverse(")lin(") == "(nil)" by { NilReversed(); }
    var a, b := FieldShape(")lin(", 18, flags);
    assert b == if left then 13 else 0;
    NoBlanks("(nil)" + Repeat(' ', b));
    if !left {
      assert Repeat(' ', 0) == [] && "(nil)" + [] == "(nil)";
    }
  }

  lemma NilReversed()
    ensures Reverse(")lin(") == "(nil)"
  {
  }

  lemma PointerFlagsAre(d: Directive, left: bool)
    ensures var f := PointerFlags(d, left); f.left == left && f.zeropad && f == FlagsOf(d, left).(zeropad := true, pointer := true)
    ensures HEX == 16 && Arithmetic.Max(13, 0) == 13
  {
  }

  lemma PointerDef(s: Spec, bits: u64)
    ensures PointerConversion(s, bits) == var f := s.flags.(zeropad := true, pointer := true);
      if bits == 0 then OutRev(")lin(", 18, f) else Integer(bits, false, HEX, s.precision, 18, f)
  {
    hide OutRev, Integer;
  }

  /** A pointer has at most sixteen digits. */
  lemma NumeralFits(bits: u64, flags: Flags)
    requires bits > 0
    ensures |Numeral(bits, 16, flags)| <= 16
  {
    assert Pow(16, 8) == 0x1_0000_0000;
    assert Pow(16, 16) == 0x1_0000_0000_0000_0000;
    DigitsFit(bits, 16, flags.uppercase, BUFFER_SIZE, 16);
    hide Pow, Digits;
  }

  lemma {:induction false} DigitsFit(value: nat, base: nat, uppercase: bool, room: nat, n: nat)
    requires 2 <= base <= 16 && value < Pow(base, n)
    ensures |Digits(value, base, uppercase, room)| <= n
    decreases n
  {
    if value > 0 && room > 0 {
      TimesIs(base, Pow(base, n - 1));
      QuotientBound(value, base, Pow(base, n - 1));
      DigitsFit(value / base, base, uppercase, room - 1, n - 1);
    }
    hide DigitChar, Times;
  }

  lemma PointerLayout(d: Directive, left: bool, n: nat, precision: nat, asked: seq<char>, room: nat, filled: nat, bits: u64)
    requires 1 <= n <= 16 && bits > 0 && (d.precision.None? ==> precision == 0)
    requires asked == if '+' in d.flags then "+" else if ' ' in d.flags then " " else ""
    requires room == if left then 0 else 18 - |asked|
    requires var f := PointerFlags(d, left);
      filled == Filled(n, ZerosTo(18, f.plus || f.space, f.zeropad && !left), f.zeropad && !left, precision)
    ensures var f := PointerFlags(d, left);
      && f.left == left && f.zeropad && f.precision == d.precision.Some? && !f.uppercase
      && Alternative(bits, 16, n, filled, f) && Sign(false, f) == asked
      && (if d.precision.None? then Arithmetic.Max(room - 2 - n, 0) else Arithmetic.Max(Arithmetic.Max(room, Arithmetic.Min(precision, 32)) - n, 0))
         == filled - n - GivenUp(16, n, filled, ZerosTo(18, f.plus || f.space, f.zeropad && !left), f.precision)
      && 0 <= filled - n - GivenUp(16, n, filled, ZerosTo(18, f.plus || f.space, f.zeropad && !left), f.precision) <= 32 - n
  {
  }

  lemma PointerPrefix(d: Directive, left: bool, n: nat, z: nat)
    requires n + z <= 32
    ensures var prefix := Tail(AlternativePrefix(16, PointerFlags(d, left)), 32 - n - z);
      |prefix| == Arithmetic.Min(2, 32 - z - n) && prefix == "0x"[2 - |prefix|..]
  {
  }

  lemma NoBlanks(s: seq<char>)
    ensures Repeat(' ', 0) + s == s
  {
  }

  /** A negative precision among the arguments counts as if it were not given (section 7.21.6.1 of ISO/IEC 9899:2011).
      The printer takes it for zero, so a string is printed as it should exactly when it is all blanks and no longer
      than the field. */
  lemma NegativePrecisionExact(d: Directive, args: nat -> Arg, k: nat, t: seq<char>, width: nat)
    requires WellFormed(d) && d.specifier == 's' && d.precision == Some(Star) && args(k + Stars(d)).text == Some(t)
    requires args(if d.width.Star? then k + 1 else k).bits % 0x1_0000_0000 >= 0x8000_0000 && width == WidthOf(d, args, k)
    ensures TextOf(d, args, k) == (if LeftOf(d, args, k) then t + Repeat(' ', width - |t|) else Repeat(' ', width - |t|) + t)
      <==> |t| <= width && t == Repeat(' ', |t|)
  {
    hide *;
    CountsTaken(d, args, k, args(k).bits % 0x1_0000_0000, args(if d.width.Star? then k + 1 else k).bits % 0x1_0000_0000);
    var shown := if |t| > 0 then t[..0] else t;
    StringText(d, args, k, Some(t), shown, width, 0, 0);
    assert shown == [];
    assert TextOf(d, args, k) == Repeat(' ', width);
    BlanksExact(t, width);
  }

  lemma BlanksExact(t: seq<char>, width: nat)
    ensures Repeat(' ', width) == t + Repeat(' ', width - |t|) <==> |t| <= width && t == Repeat(' ', |t|)
    ensures Repeat(' ', width) == Repeat(' ', width - |t|) + t <==> |t| <= width && t == Repeat(' ', |t|)
  {
    var blanks := Repeat(' ', width);
    if blanks == t + Repeat(' ', width - |t|) {
      assert forall i :: 0 <= i < |t| ==> t[i] == blanks[i];
    }
    if blanks == Repeat(' ', width - |t|) + t {
      assert forall i :: 0 <= i < |t| ==> t[i] == blanks[|blanks| - |t| + i];
    }
  }

  /** Without flags, width and precision, an unsigned conversion prints nothing but the digits of its argument. */
  lemma PlainText(d: Directive, args: nat -> Arg, k: nat, base: nat, size: nat, low: nat)
    requires WellFormed(d) && d.flags == [] && d.width == Absent && d.precision == None
    requires ForInteger(d.specifier) && d.specifier != 'd' && d.specifier != 'i'
    requires base == match d.specifier case 'x' | 'X' => 16 case 'o' => 8 case 'b' => 2 case _ => 10
    requires size == match d.length case HH => 0x100 case H => 0x1_0000 case NoLength => 0x1_0000_0000 case _ => 0x1_0000_0000_0000_0000
    requires low == args(k).bits % size
    ensures var s := TextOf(d, args, k);
      && AreDigits(s, base, d.specifier == 'X') && Denote(s, base) == (if base == 2 then low % 0x1_0000_0000 else low)
      && s != [] && (low == 0 ==> s == "0") && (low > 0 && (base != 2 || low < 0x1_0000_0000) ==> s[0] != '0')
  {
    hide *;
    PlainForm(d, args, k);
    var a, sign, prefix, z, numeral, b := IntegerText(d, args, k, base, size, low, low, "", "", 0, 0, false);
    NothingAround(a, sign, prefix, z, numeral, b);
  }

  lemma PlainForm(d: Directive, args: nat -> Arg, k: nat)
    requires WellFormed(d) && d.flags == [] && d.width == Absent && d.precision == None
    ensures Stars(d) == 0 && WidthOf(d, args, k) == 0 && PrecisionOf(d, args, k) == 0 && !LeftOf(d, args, k)
  {
    hide WellFormed;
  }

  lemma NothingAround(a: nat, sign: seq<char>, prefix: seq<char>, z: nat, numeral: seq<char>, b: nat)
    requires sign == "" && z == 0 && b == 0 && |numeral| <= 32
    requires |prefix| == Arithmetic.Min(0, 32 - |numeral| - z) && a == Arithmetic.Max(0 - |sign| - |prefix| - z - |numeral|, 0)
    ensures Repeat(' ', a) + (sign + prefix + Repeat('0', z) + numeral) + Repeat(' ', b) == numeral
  {
    assert Repeat(' ', 0) == [] && Repeat('0', 0) == [] && a == 0 && prefix == "";
    hide Repeat;
  }
}
