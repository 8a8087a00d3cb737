/**
 Integer formatting denotes its value (section 7.21.6.1 of ISO/IEC 9899:2011).
 */
module PrintfValue {
  import Arithmetic
  import opened Words
  import opened PrintfText

  function DigitValue(c: char): int {
    if c <= '9' then c as int - '0' as int
    else if c <= 'F' then c as int - 'A' as int + 10
    else c as int - 'a' as int + 10
  }

  /** The number that a digit string denotes. */
  function Denote(s: seq<char>, base: nat): int {
    if s == [] then 0 else Denote(s[..|s| - 1], base) * base + DigitValue(s[|s| - 1])
  }

  function Pow(base: nat, n: nat): (r: nat)
    ensures base >= 1 ==> r >= 1
  {
    if n == 0 then 1 else Times(base, Pow(base, n - 1))
  }

  function Times(a: nat, b: nat): (r: nat)
    ensures a >= 1 && b >= 1 ==> r >= 1
  {
    a * b
  }

  lemma {:induction false} ReverseAppend(a: seq<char>, b: seq<char>)
    ensures Reverse(a + b) == Reverse(b) + Reverse(a)
    decreases |a|
  {
    if a == [] {
      assert a + b == b;
    } else {
      ReverseAppend(a[1..], b);
      assert (a + b)[1..] == a[1..] + b;
    }
  }

  lemma {:induction false} ReverseRepeat(c: char, n: int)
    ensures Reverse(Repeat(c, n)) == Repeat(c, n)
  {
  }

  lemma DigitRound(d: nat, uppercase: bool)
    requires d < 16
    ensures DigitValue(DigitChar(d, uppercase)) == d
  {
  }

  /** As many digits as fit denote the number modulo a power of the base. */
  lemma {:induction false} DigitsDenote(value: nat, base: nat, uppercase: bool, room: nat)
    requires 2 <= base <= 16
    ensures Denote(Reverse(Digits(value, base, uppercase, room)), base) == value % Pow(base, room)
    decreases room
  {
    hide *;
    if room == 0 || value == 0 {
      NoDigits(value, base, uppercase, room);
    } else {
      DigitsDenote(value / base, base, uppercase, room - 1);
      DigitsNext(value, base, uppercase, room, value / base);
      DenoteNext(Reverse(Digits(value / base, base, uppercase, room - 1)), value % base, uppercase, base);
      Arithmetic.ModProduct(value, base, Pow(base, room - 1));
      TimesIs(base, Pow(base, room - 1));
    }
  }

  lemma NoDigits(value: nat, base: nat, uppercase: bool, room: nat)
    requires 2 <= base <= 16 && (room == 0 || value == 0)
    ensures Pow(base, room) >= 1
    ensures Denote(Reverse(Digits(value, base, uppercase, room)), base) == value % Pow(base, room)
  {
    if room > 0 {
      ZeroMod(Pow(base, room));
    }
    hide Times;
  }

  lemma TimesIs(a: nat, b: nat)
    ensures Times(a, b) == a * b
  {
  }

  lemma DigitsNext(value: nat, base: nat, uppercase: bool, room: nat, rest: nat)
    requires 2 <= base <= 16 && room > 0 && value > 0 && rest == value / base
    ensures Pow(base, room) == Times(base, Pow(base, room - 1)) && Pow(base, room - 1) >= 1
    ensures 0 <= value % base < 16
    ensures Reverse(Digits(value, base, uppercase, room))
      == Reverse(Digits(rest, base, uppercase, room - 1)) + [DigitChar(value % base, uppercase)]
  {
    hide DigitChar, Times;
  }

  lemma DenoteNext(s: seq<char>, d: nat, uppercase: bool, base: nat)
    requires d < base <= 16
    ensures Denote(s + [DigitChar(d, uppercase)], base) == Denote(s, base) * base + d
  {
    var t := s + [DigitChar(d, uppercase)];
    DigitRound(d, uppercase);
    assert t[..|t| - 1] == s;
    hide DigitChar, DigitValue;
  }

  lemma ZeroMod(m: nat)
    requires m >= 1
    ensures 0 % m == 0
  {
  }

  lemma PowerMonotonic(a: nat, b: nat, n: nat)
    requires a <= b
    ensures Pow(a, n) <= Pow(b, n)
  {
    if n > 0 {
      PowerMonotonic(a, b, n - 1);
      assert Times(a, Pow(a, n - 1)) <= Times(b, Pow(b, n - 1)) by {
        TimesMonotonic(a, b, Pow(a, n - 1), Pow(b, n - 1));
      }
    }
  }

  lemma TimesMonotonic(a: nat, b: nat, x: nat, y: nat)
    requires a <= b && x <= y
    ensures Times(a, x) <= Times(b, y)
  {
    Arithmetic.MulMonotonic(a, b, x);
    Arithmetic.MulMonotonic(x, y, b);
  }

  /** The buffer holds all digits of a 64-bit number in base 8, 10 or 16, and the low 32 in base 2. */
  lemma Capacity()
    ensures Pow(2, BUFFER_SIZE) == WORD_MODULUS
    ensures Pow(8, BUFFER_SIZE) >= SIZE_MODULUS && Pow(10, BUFFER_SIZE) >= SIZE_MODULUS && Pow(16, BUFFER_SIZE) >= SIZE_MODULUS
  {
    PowersOfTwo();
    PowersOfEight();
    hide Pow;
    PowerMonotonic(8, 10, 32);
    PowerMonotonic(8, 16, 32);
  }

  lemma PowersOfTwo()
    ensures Pow(2, 32) == WORD_MODULUS
  {
    assert Pow(2, 8) == 0x100;
    assert Pow(2, 16) == 0x1_0000;
    assert Pow(2, 24) == 0x100_0000;
  }

  lemma PowersOfEight()
    ensures Pow(8, 32) >= SIZE_MODULUS
  {
    assert Pow(8, 8) == 0x100_0000;
    assert Pow(8, 16) == 0x1_0000_0000_0000;
    assert Pow(8, 24) == 0x100_0000_0000_0000_0000;
  }

  /** Leading zeros do not count. */
  lemma {:induction false} LeadingZeros(z: nat, s: seq<char>, base: nat)
    ensures Denote(Repeat('0', z) + s, base) == Denote(s, base)
    decreases z + |s|
  {
    var t := Repeat('0', z) + s;
    if s != [] {
      LeadingZeros(z, s[..|s| - 1], base);
      assert t[..|t| - 1] == Repeat('0', z) + s[..|s| - 1];
    } else if z > 0 {
      LeadingZeros(z - 1, [], base);
      assert Repeat('0', z - 1) + [] == Repeat('0', z - 1) && t == Repeat('0', z);
      assert t[..|t| - 1] == Repeat('0', z - 1);
    }
  }

  /** The numeral of a 64-bit number, with any leading zeros, denotes it; in base 2 modulo 2^32. */
  lemma NumeralDenotes(value: u64, base: nat, flags: Flags, z: nat)
    requires base == BINARY || base == OCTAL || base == DECIMAL || base == HEX
    ensures Denote(Repeat('0', z) + Reverse(Numeral(value, base, flags)), base)
      == if base == BINARY then value % WORD_MODULUS else value
  {
    hide *;
    NumeralIs(value, base, flags);
    LeadingZeros(z, Reverse(Numeral(value, base, flags)), base);
    if value == 0 && !flags.precision {
      ZeroDenotes(base);
    } else {
      DigitsDenote(value, base, flags.uppercase, BUFFER_SIZE);
      Modulus(value, base);
    }
  }

  lemma NumeralIs(value: u64, base: nat, flags: Flags)
    requires base == BINARY || base == OCTAL || base == DECIMAL || base == HEX
    ensures 2 <= base <= 16
    ensures Numeral(value, base, flags)
      == if value == 0 && !flags.precision then ['0'] else Digits(value, base, flags.uppercase, BUFFER_SIZE)
    ensures OCTAL == 8 && DECIMAL == 10 && HEX == 16 && BINARY == 2 && WORD_MODULUS == 0x1_0000_0000
  {
  }

  lemma ZeroDenotes(base: nat)
    ensures Denote(Reverse(['0']), base) == 0
  {
    assert Reverse(['0']) == ['0'] && ['0'][..0] == [];
    assert Denote([], base) == 0;
  }

  lemma Modulus(value: u64, base: nat)
    requires base == BINARY || base == OCTAL || base == DECIMAL || base == HEX
    ensures value % Pow(base, BUFFER_SIZE) == if base == BINARY then value % WORD_MODULUS else value
  {
    Capacity();
    hide Pow;
    if base != BINARY {
      SmallMod(value, Pow(base, BUFFER_SIZE));
    }
  }

  lemma SmallMod(v: nat, m: nat)
    requires v < m
    ensures v % m == v
  {
  }

  // ---- The shape of an integer

  /** What precedes the digits of a number in the alternative form. */
  function AlternativePrefix(base: nat, flags: Flags): seq<char> {
    if base == HEX then (if flags.uppercase then "0X" else "0x") else if base == BINARY then "0b" else "0"
  }

  /** The last `n` characters. */
  function Tail(s: seq<char>, n: int): seq<char> {
    if n >= |s| then s else if n <= 0 then [] else s[|s| - n..]
  }

  /** A number has the alternative prefix if it is a pointer, or the flag is given and neither the number is
      zero nor leading zeros make the prefix of an octal one superfluous. */
  predicate HasPrefix(value: nat, base: nat, zeros: nat, flags: Flags) {
    (ZeroFlags(value, base, flags).hash && !(base == OCTAL && zeros > 0)) || flags.pointer
  }

  /** The reversed buffer before the sign: the numeral, zeros, and a reversed prefix as far as it fits. */
  lemma PrefixedShape(buf: seq<char>, negative: bool, base: nat, precision: nat, width: nat, flags: Flags) returns (z: nat, prefix: seq<char>)
    requires |buf| <= BUFFER_SIZE
    ensures Prefixed(buf, negative, base, precision, width, flags) == buf + Repeat('0', z) + Reverse(prefix)
    ensures prefix == if (flags.hash && !(base == OCTAL && z > 0)) || flags.pointer
                      then Tail(AlternativePrefix(base, flags), BUFFER_SIZE - |buf| - z) else []
  {
    hide *;
    z := PaddedShape(buf, negative, precision, width, flags);
    prefix := [];
    PrefixedIs(buf, negative, base, precision, width, flags, z);
    if (flags.hash && !(base == OCTAL && z > 0)) || flags.pointer {
      var padded := Padded(buf, negative, precision, width, flags);
      var taken := TakeBack(padded, |buf|, base, precision, ZeroWidth(negative, width, flags), flags);
      ZerosTaken(buf, padded, z, |taken|);
      z := |taken| - |buf|;
      prefix := PrefixAdded(taken, base, flags);
    } else {
      NoPrefix(buf + Repeat('0', z));
    }
  }

  lemma NoPrefix(s: seq<char>)
    ensures s + Reverse([]) == s
  {
  }

  lemma PrefixedIs(buf: seq<char>, negative: bool, base: nat, precision: nat, width: nat, flags: Flags, z: nat)
    requires |buf| <= BUFFER_SIZE && z == |Padded(buf, negative, precision, width, flags)| - |buf|
    ensures var padded := Padded(buf, negative, precision, width, flags);
      var taken := TakeBack(padded, |buf|, base, precision, ZeroWidth(negative, width, flags), flags);
      && |padded| <= BUFFER_SIZE && |buf| <= |taken| <= |padded| && taken == padded[..|taken|]
      && Prefixed(buf, negative, base, precision, width, flags)
         == if (flags.hash && !(base == OCTAL && z > 0)) || flags.pointer then AddPrefix(taken, base, flags) else padded
  {
    hide Padded, TakeBack, AddPrefix;
  }

  lemma PaddedShape(buf: seq<char>, negative: bool, precision: nat, width: nat, flags: Flags) returns (z: nat)
    requires |buf| <= BUFFER_SIZE
    ensures Padded(buf, negative, precision, width, flags) == buf + Repeat('0', z)
    ensures z == |Padded(buf, negative, precision, width, flags)| - |buf|
  {
    var first := if !flags.left && flags.zeropad then PadZeros(buf, ZeroWidth(negative, width, flags)) else buf;
    var r := Padded(buf, negative, precision, width, flags);
    z := |r| - |buf|;
    assert r == buf + Repeat('0', z);
  }

  lemma ZerosTaken(buf: seq<char>, padded: seq<char>, z: nat, n: nat)
    requires padded == buf + Repeat('0', z) && |buf| <= n <= |padded|
    ensures padded[..n] == buf + Repeat('0', n - |buf|)
  {
  }

  lemma PrefixAdded(buf: seq<char>, base: nat, flags: Flags) returns (prefix: seq<char>)
    requires |buf| <= BUFFER_SIZE
    ensures AddPrefix(buf, base, flags) == buf + Reverse(prefix)
    ensures prefix == Tail(AlternativePrefix(base, flags), BUFFER_SIZE - |buf|)
  {
    prefix := Tail(AlternativePrefix(base, flags), BUFFER_SIZE - |buf|);
    ReverseTwo('0', if flags.uppercase then 'X' else 'x');
    ReverseTwo('0', 'b');
    ReverseShort();
    assert buf + [] == buf;
    hide Reverse;
  }

  lemma ReverseShort()
    ensures Reverse("0") == "0" && Reverse("") == ""
  {
  }

  lemma ReverseTwo(c: char, d: char)
    ensures Reverse([c, d]) == [d, c] && Reverse([d]) == [d]
  {
  }

  /** The sign that a conversion asks for. */
  function Sign(negative: bool, flags: Flags): seq<char> {
    if negative then "-" else if flags.plus then "+" else if flags.space then " " else ""
  }

  lemma SignAdded(buf: seq<char>, negative: bool, flags: Flags)
    requires |buf| <= BUFFER_SIZE
    ensures AddSign(buf, negative, flags) == buf + Reverse(if |buf| < BUFFER_SIZE then Sign(negative, flags) else [])
  {
    assert Reverse("-") == "-" && Reverse("+") == "+" && Reverse(" ") == " " && Reverse("") == "";
    assert buf + [] == buf;
  }

  lemma FieldShape(buf: seq<char>, width: nat, flags: Flags) returns (a: nat, b: nat)
    ensures OutRev(buf, width, flags) == Repeat(' ', a) + Reverse(buf) + Repeat(' ', b)
    ensures if flags.left then a == 0 else b == 0
    ensures a == if flags.left || flags.zeropad then 0 else Arithmetic.Max(width - |buf|, 0)
    ensures b == if flags.left then Arithmetic.Max(width - |buf|, 0) else 0
    ensures |OutRev(buf, width, flags)| == if (flags.left || !flags.zeropad) && |buf| < width then width else |buf|
  {
    var n := if |buf| < width then width - |buf| else 0;
    a, b := if !flags.left && !flags.zeropad then n else 0, if flags.left then n else 0;
    var text := Reverse(buf);
    assert Repeat(' ', 0) == [] && [] + text == text && text + [] == text;
    assert Repeat(' ', width - |buf|) == Repeat(' ', n);
  }

  lemma FourParts(numeral: seq<char>, zeros: seq<char>, prefix: seq<char>, sign: seq<char>)
    ensures Reverse(numeral + zeros + Reverse(prefix) + Reverse(sign)) == sign + prefix + Reverse(zeros) + Reverse(numeral)
  {
    hide Reverse;
    ReverseAppend(numeral + zeros + Reverse(prefix), Reverse(sign));
    ReverseAppend(numeral + zeros, Reverse(prefix));
    ReverseAppend(numeral, zeros);
    ReverseTwice(prefix);
    ReverseTwice(sign);
    assert sign + (prefix + (Reverse(zeros) + Reverse(numeral))) == sign + prefix + Reverse(zeros) + Reverse(numeral);
  }

  lemma ReverseTwice(s: seq<char>)
    ensures Reverse(Reverse(s)) == s
  {
  }

  /** Every integer conversion is blanks, a sign, a prefix, zeros, the numeral of the value, and blanks; the
      zeros and the numeral denote the value. The sign is lost exactly when the rest fills the buffer. */
  lemma IntegerShape(value: u64, negative: bool, base: nat, precision: nat, width: nat, flags: Flags)
    returns (a: nat, sign: seq<char>, prefix: seq<char>, digits: seq<char>, b: nat)
    requires base == BINARY || base == OCTAL || base == DECIMAL || base == HEX
    ensures Integer(value, negative, base, precision, width, flags)
      == Repeat(' ', a) + (sign + prefix + digits) + Repeat(' ', b)
    ensures if flags.left then a == 0 else b == 0
    ensures sign == if |prefix| + |digits| < BUFFER_SIZE then Sign(negative, flags) else []
    ensures |digits| >= |Numeral(value, base, flags)| && digits[|digits| - |Numeral(value, base, flags)|..] == Reverse(Numeral(value, base, flags))
    ensures prefix == if HasPrefix(value, base, |digits| - |Numeral(value, base, flags)|, flags)
                      then Tail(AlternativePrefix(base, flags), BUFFER_SIZE - |digits|) else []
    ensures Denote(digits, base) == if base == BINARY then value % WORD_MODULUS else value
  {
    hide *;
    NumeralIs(value, base, flags);
    IntegerIs(value, negative, base, precision, width, flags);
    var numeral, f := Numeral(value, base, flags), ZeroFlags(value, base, flags);
    var w := ZeroWidth(negative, width, f);
    var z;
    z, prefix := PrefixedShape(numeral, negative, base, precision, width, f);
    var body := Prefixed(numeral, negative, base, precision, width, f);
    SignAdded(body, negative, f);
    sign := if |body| < BUFFER_SIZE then Sign(negative, f) else [];
    a, b := FieldShape(AddSign(body, negative, f), w, f);
    FourParts(numeral, Repeat('0', z), prefix, sign);
    ReverseRepeat('0', z);
    digits := Repeat('0', z) + Reverse(numeral);
    assert sign + prefix + Repeat('0', z) + Reverse(numeral) == sign + prefix + digits;
    NumeralDenotes(value, base, flags, z);
    SameFlags(value, negative, base, z, flags);
  }

  lemma IntegerIs(value: nat, negative: bool, base: nat, precision: nat, width: nat, flags: Flags)
    requires 2 <= base <= 16
    ensures var f := ZeroFlags(value, base, flags);
      Integer(value, negative, base, precision, width, flags)
      == OutRev(AddSign(Prefixed(Numeral(value, base, flags), negative, base, precision, width, f), negative, f), ZeroWidth(negative, width, f), f)
    ensures ZeroFlags(value, base, flags).left == flags.left && ZeroFlags(value, base, flags).zeropad == flags.zeropad
  {
    hide *;
    IntegerDef(value, negative, base, precision, width, flags);
    ZeroFlagsKeep(value, base, flags);
    FinalizedIs(Numeral(value, base, flags), negative, base, precision, width, ZeroFlags(value, base, flags));
  }

  lemma IntegerDef(value: nat, negative: bool, base: nat, precision: nat, width: nat, flags: Flags)
    requires 2 <= base <= 16
    ensures Integer(value, negative, base, precision, width, flags)
      == Finalized(Numeral(value, base, flags), negative, base, precision, width, ZeroFlags(value, base, flags))
  {
    hide Numeral, Finalized, ZeroFlags;
  }

  lemma ZeroFlagsKeep(value: nat, base: nat, flags: Flags)
    ensures ZeroFlags(value, base, flags).left == flags.left && ZeroFlags(value, base, flags).zeropad == flags.zeropad
  {
  }

  lemma FinalizedIs(buf: seq<char>, negative: bool, base: nat, precision: nat, width: nat, flags: Flags)
    requires |buf| <= BUFFER_SIZE
    ensures Finalized(buf, negative, base, precision, width, flags)
      == OutRev(AddSign(Prefixed(buf, negative, base, precision, width, flags), negative, flags), ZeroWidth(negative, width, flags), flags)
  {
    hide Prefixed, OutRev, AddSign, ZeroWidth;
  }

  lemma SameFlags(value: nat, negative: bool, base: nat, zeros: nat, flags: Flags)
    ensures Sign(negative, ZeroFlags(value, base, flags)) == Sign(negative, flags)
    ensures AlternativePrefix(base, ZeroFlags(value, base, flags)) == AlternativePrefix(base, flags)
    ensures HasPrefix(value, base, zeros, flags)
      <==> (ZeroFlags(value, base, flags).hash && !(base == OCTAL && zeros > 0)) || ZeroFlags(value, base, flags).pointer
  {
  }

  /** The field has its width exactly when blanks may fill it or the buffer is as wide. */
  lemma FieldWidth(value: u64, negative: bool, base: nat, precision: nat, width: nat, flags: Flags)
    requires 2 <= base <= 16
    ensures |Integer(value, negative, base, precision, width, flags)| >= width
      <==> flags.left || !flags.zeropad || width <= BUFFER_SIZE
  {
    IntegerIs(value, negative, base, precision, width, flags);
    var f := ZeroFlags(value, base, flags);
    var numeral := Numeral(value, base, flags);
    var body := Prefixed(numeral, negative, base, precision, width, f);
    var a, b := FieldShape(AddSign(body, negative, f), ZeroWidth(negative, width, f), f);
    if f.zeropad && !f.left && width <= BUFFER_SIZE {
      BodyWidth(numeral, negative, base, precision, width, f);
    }
    hide Numeral, Integer, Prefixed, OutRev;
  }

  /** Taking back zeros for a prefix never shortens the result. */
  lemma BodyWidth(buf: seq<char>, negative: bool, base: nat, precision: nat, width: nat, flags: Flags)
    requires |buf| <= BUFFER_SIZE && flags.zeropad && !flags.left && width <= BUFFER_SIZE
    ensures |Prefixed(buf, negative, base, precision, width, flags)| >= ZeroWidth(negative, width, flags)
  {
    var padded := Padded(buf, negative, precision, width, flags);
    assert |padded| >= ZeroWidth(negative, width, flags);
    hide PadZeros, Padded, ZeroWidth;
  }
}
