/**
 The syntax of conversion specifications (section 7.21.6.1 of ISO/IEC 9899:2011), and how the printer reads them.
 */
module PrintfSyntax {
  import Arithmetic
  import opened Words
  import opened PrintfText
  import opened PrintfValue

  /** A width or a precision: nothing, a decimal number, or an asterisk, which takes it from the arguments. */
  datatype Count = Absent | Given(digits: seq<char>) | Star

  datatype Length = NoLength | HH | H | L | LL | T | J | Z

  /** A conversion specification; a precision is there when there is a point. */
  datatype Directive = Directive(flags: seq<char>, width: Count, precision: Option<Count>, length: Length, specifier: char)

  function ShowCount(n: Count): seq<char> {
    match n case Absent => "" case Given(ds) => ds case Star => "*"
  }

  function ShowPrecision(p: Option<Count>): seq<char> {
    match p case None => "" case Some(n) => "." + ShowCount(n)
  }

  function ShowLength(l: Length): seq<char> {
    match l
    case NoLength => "" case HH => "hh" case H => "h" case L => "l" case LL => "ll" case T => "t" case J => "j" case Z => "z"
  }

  /** A specification from its length modifier on, from its precision on, and from its width on. */
  function FromLength(d: Directive): seq<char> {
    ShowLength(d.length) + [d.specifier]
  }

  function FromPrecision(d: Directive): seq<char> {
    ShowPrecision(d.precision) + FromLength(d)
  }

  function FromWidth(d: Directive): seq<char> {
    ShowCount(d.width) + FromPrecision(d)
  }

  function Show(d: Directive): (s: seq<char>)
    ensures |s| >= 2
  {
    "%" + (d.flags + FromWidth(d))
  }

  predicate IsNumber(ds: seq<char>) {
    forall i :: 0 <= i < |ds| ==> Decimal(ds[i])
  }

  predicate Flag(c: char) {
    c == '0' || c == '-' || c == '+' || c == ' ' || c == '#'
  }

  predicate Decimal(c: char) {
    '0' <= c <= '9'
  }

  predicate Modifier(c: char) {
    c == 'l' || c == 'h' || c == 't' || c == 'j' || c == 'z'
  }

  /** Flags in any order, and as often as you like. */
  predicate AreFlags(fl: seq<char>) {
    forall i :: 0 <= i < |fl| ==> Flag(fl[i])
  }

  predicate WellFormed(d: Directive) {
    && AreFlags(d.flags)
    && (d.width.Given? ==> IsNumber(d.width.digits) && d.width.digits != [] && d.width.digits[0] != '0')
    && (d.precision.Some? && d.precision.value.Given? ==> IsNumber(d.precision.value.digits) && d.precision.value.digits != [])
    && !Flag(d.specifier) && !Decimal(d.specifier) && d.specifier != '*' && d.specifier != '.' && !Modifier(d.specifier)
  }

  /** The specifications of the standard, and those with the specifier `b`, are well formed, and written as it says. */
  lemma StandardForm(d: Directive, width: seq<char>, precision: seq<char>, length: seq<char>)
    requires forall i :: 0 <= i < |d.flags| ==> d.flags[i] == '-' || d.flags[i] == '+' || d.flags[i] == ' ' || d.flags[i] == '#' || d.flags[i] == '0'
    requires width == match d.width case Absent => "" case Given(ds) => ds case Star => "*"
    requires d.width.Given? ==> width != "" && '1' <= width[0] <= '9' && forall i :: 0 <= i < |width| ==> '0' <= width[i] <= '9'
    requires d.precision.None? ==> precision == ""
    requires d.precision.Some? ==> precision == "." + match d.precision.value case Absent => "" case Given(ds) => ds case Star => "*"
    requires d.precision.Some? && d.precision.value.Given? ==>
      d.precision.value.digits != "" && forall i :: 0 <= i < |d.precision.value.digits| ==> '0' <= d.precision.value.digits[i] <= '9'
    requires length == match d.length
      case NoLength => "" case HH => "hh" case H => "h" case L => "l" case LL => "ll" case T => "t" case J => "j" case Z => "z"
    requires match d.specifier case 'd' | 'i' | 'u' | 'x' | 'X' | 'o' | 'b' | 'c' | 's' | 'p' | 'n' | '%' => true case _ => false
    ensures WellFormed(d) && Show(d) == "%" + d.flags + width + precision + length + [d.specifier]
  {
    assert "%" + (d.flags + (width + (precision + (length + [d.specifier])))) == "%" + d.flags + width + precision + length + [d.specifier];
  }

  /** A text stands at a place of a format. */
  predicate Stands(f: seq<char>, i: nat, s: seq<char>) {
    i + |s| <= |f| && f[i..i + |s|] == s
  }

  lemma Apart(f: seq<char>, i: nat, a: seq<char>, b: seq<char>)
    requires Stands(f, i, a + b)
    ensures Stands(f, i, a) && Stands(f, i + |a|, b)
  {
    assert f[i..i + |a|] == (a + b)[..|a|] == a;
    assert f[i + |a|..i + |a| + |b|] == (a + b)[|a|..] == b;
  }

  lemma FirstOf(f: seq<char>, i: nat, s: seq<char>)
    requires Stands(f, i, s) && s != []
    ensures i < |f| && f[i] == s[0] && CharAt(f, i) == s[0] && Stands(f, i + 1, s[1..])
  {
    assert f[i..i + |s|][0] == s[0];
    assert f[i + 1..i + |s|] == s[1..];
  }

  // ---- Flags and numbers

  lemma InFirst(fl: seq<char>, c: char)
    requires fl != []
    ensures c in fl <==> fl[0] == c || c in fl[1..]
  {
    assert fl == [fl[0]] + fl[1..];
  }

  lemma FlagsIs(f: seq<char>, i: nat, flags: Flags)
    requires i <= |f|
    ensures ParseFlags(f, i, flags)
      == if i < |f| && Flag(f[i]) then ParseFlags(f, i + 1, SetFlag(flags, f[i])) else (flags, i)
  {
  }

  lemma FlagSet(flags: Flags, c: char)
    requires Flag(c)
    ensures SetFlag(flags, c) == flags.(zeropad := flags.zeropad || c == '0', left := flags.left || c == '-',
      plus := flags.plus || c == '+', space := flags.space || c == ' ', hash := flags.hash || c == '#')
  {
  }

  function WithFlags(flags: Flags, fl: seq<char>): Flags {
    flags.(zeropad := flags.zeropad || '0' in fl, left := flags.left || '-' in fl,
           plus := flags.plus || '+' in fl, space := flags.space || ' ' in fl, hash := flags.hash || '#' in fl)
  }

  lemma RestFlags(fl: seq<char>)
    requires fl != [] && AreFlags(fl)
    ensures AreFlags(fl[1..]) && Flag(fl[0])
  {
  }

  lemma WithNext(flags: Flags, fl: seq<char>)
    requires fl != [] && Flag(fl[0])
    ensures WithFlags(SetFlag(flags, fl[0]), fl[1..]) == WithFlags(flags, fl)
  {
    hide SetFlag, AreFlags;
    var c, rest := fl[0], fl[1..];
    InFirst(fl, '0');
    InFirst(fl, '-');
    InFirst(fl, '+');
    InFirst(fl, ' ');
    InFirst(fl, '#');
    FlagSet(flags, c);
  }

  lemma {:induction false} FlagsRead(f: seq<char>, i: nat, fl: seq<char>, flags: Flags)
    requires i + |fl| <= |f| && Stands(f, i, fl) && AreFlags(fl)
    requires i + |fl| < |f| ==> !Flag(f[i + |fl|])
    ensures ParseFlags(f, i, flags) == (WithFlags(flags, fl), i + |fl|)
    decreases |fl|
  {
    hide *;
    FlagsIs(f, i, flags);
    if fl != [] {
      FirstOf(f, i, fl);
      RestFlags(fl);
      WithNext(flags, fl);
      FlagsRead(f, i + 1, fl[1..], SetFlag(flags, f[i]));
    } else {
      WithNone(flags);
    }
  }

  lemma WithNone(flags: Flags)
    ensures WithFlags(flags, []) == flags
  {
  }

  lemma {:induction false} NumberBound(ds: seq<char>)
    requires IsNumber(ds)
    ensures Denote(ds, 10) >= 0
  {
    if ds != [] {
      NumberBound(ds[..|ds| - 1]);
    }
  }

  /** One more digit, modulo the word size. */
  lemma DigitMod(n: nat, d: nat)
    ensures (n % WORD_MODULUS * 10 + d) % WORD_MODULUS == (n * 10 + d) % WORD_MODULUS
  {
    var q, r := n / WORD_MODULUS, n % WORD_MODULUS;
    var x := r * 10 + d;
    assert n * 10 + d == q * 10 * WORD_MODULUS + x;
    Arithmetic.DivMod(q * 10 + x / WORD_MODULUS, WORD_MODULUS, x % WORD_MODULUS);
  }

  lemma {:induction false} DigitsRead(f: seq<char>, i: nat, ds: seq<char>, read: seq<char>)
    requires i + |ds| <= |f| && Stands(f, i, ds) && IsNumber(ds) && IsNumber(read)
    requires i + |ds| < |f| ==> !Decimal(f[i + |ds|])
    ensures Denote(read, 10) >= 0
    ensures Atou(f, i, Denote(read, 10) % WORD_MODULUS) == (Denote(read + ds, 10) % WORD_MODULUS, i + |ds|)
    decreases |ds|
  {
    hide *;
    NumberBound(read);
    Modulus32();
    AtouIs(f, i, Denote(read, 10) % WORD_MODULUS);
    if ds == [] {
      assert read + ds == read;
    } else {
      FirstOf(f, i, ds);
      var more := read + [ds[0]];
      NextDigit(ds, read);
      DigitsRead(f, i + 1, ds[1..], more);
      assert more + ds[1..] == read + ds;
      DigitMod(Denote(read, 10), ds[0] as int - '0' as int);
    }
  }

  lemma Modulus32()
    ensures WORD_MODULUS == 0x1_0000_0000
  {
  }

  lemma NextDigit(ds: seq<char>, read: seq<char>)
    requires IsNumber(ds) && IsNumber(read) && ds != []
    ensures Decimal(ds[0]) && ds[0] >= '0' && IsNumber(ds[1..]) && IsNumber(read + [ds[0]])
    ensures Denote(read + [ds[0]], 10) == Denote(read, 10) * 10 + (ds[0] as int - '0' as int)
  {
    assert (read + [ds[0]])[..|read|] == read;
  }

  lemma AtouIs(f: seq<char>, i: nat, n: nat)
    requires i <= |f|
    ensures i < |f| && Decimal(f[i]) ==> f[i] >= '0'
    ensures Atou(f, i, n) == if i < |f| && Decimal(f[i]) then Atou(f, i + 1, (n * 10 + (f[i] as int - '0' as int)) % WORD_MODULUS) else (n, i)
  {
  }

  lemma NumberRead(f: seq<char>, i: nat, ds: seq<char>)
    requires Stands(f, i, ds) && IsNumber(ds)
    requires i + |ds| < |f| ==> !Decimal(f[i + |ds|])
    ensures Denote(ds, 10) >= 0
    ensures Atou(f, i, 0) == (Denote(ds, 10) % 0x1_0000_0000, i + |ds|)
  {
    hide *;
    Inside(f, i, ds);
    NoDigitsYet();
    Modulus32();
    DigitsRead(f, i, ds, []);
    assert [] + ds == ds;
    NumberBound(ds);
  }

  lemma Inside(f: seq<char>, i: nat, s: seq<char>)
    requires Stands(f, i, s)
    ensures i + |s| <= |f|
  {
  }

  lemma NoDigitsYet()
    ensures Denote([], 10) == 0 && IsNumber([]) && 0 % WORD_MODULUS == 0
  {
  }

  // ---- Widths, precisions and lengths

  /** The 32-bit integer in an argument. */
  function IntOf(a: Arg): int {
    var low := a.bits % 0x1_0000_0000;
    if low < 0x8000_0000 then low else low - 0x1_0000_0000
  }

  lemma WidthRead(f: seq<char>, s: Spec, n: Count, args: nat -> Arg)
    requires Stands(f, s.next, ShowCount(n)) && s.width == 0
    requires n.Given? ==> IsNumber(n.digits) && n.digits != []
    requires var j := s.next + |ShowCount(n)|; j < |f| && !Decimal(f[j]) && f[j] != '*'
    ensures n.Given? ==> Denote(n.digits, 10) >= 0
    ensures ParseWidth(f, s, args) == Some(match n
      case Absent => s
      case Given(ds) => s.(width := Denote(ds, 10) % 0x1_0000_0000, next := s.next + |ds|)
      case Star => s.(width := if IntOf(args(s.arg)) < 0 then -IntOf(args(s.arg)) else IntOf(args(s.arg)),
                      flags := s.flags.(left := s.flags.left || IntOf(args(s.arg)) < 0), next := s.next + 1, arg := s.arg + 1))
  {
    hide Denote, Atou;
    if n.Given? {
      FirstOf(f, s.next, n.digits);
      NumberRead(f, s.next, n.digits);
    } else if n.Star? {
      FirstOf(f, s.next, "*");
    }
  }

  lemma PrecisionRead(f: seq<char>, s: Spec, p: Option<Count>, args: nat -> Arg)
    requires Stands(f, s.next, ShowPrecision(p)) && s.precision == 0
    requires p.Some? && p.value.Given? ==> IsNumber(p.value.digits) && p.value.digits != []
    requires var j := s.next + |ShowPrecision(p)|; j < |f| && !Decimal(f[j]) && f[j] != '*' && f[j] != '.'
    ensures p.Some? && p.value.Given? ==> Denote(p.value.digits, 10) >= 0
    ensures ParsePrecision(f, s, args) == Some(match p
      case None => s
      case Some(Absent) => s.(flags := s.flags.(precision := true), next := s.next + 1)
      case Some(Given(ds)) => s.(flags := s.flags.(precision := true), precision := Denote(ds, 10) % 0x1_0000_0000,
                                  next := s.next + 1 + |ds|)
      case Some(Star) => s.(flags := s.flags.(precision := true), next := s.next + 2, arg := s.arg + 1,
                            precision := if IntOf(args(s.arg)) > 0 then IntOf(args(s.arg)) else 0))
  {
    hide Denote, Atou;
    if p.Some? {
      Apart(f, s.next, ".", ShowCount(p.value));
      FirstOf(f, s.next, ".");
      if p.value.Given? {
        FirstOf(f, s.next + 1, p.value.digits);
        NumberRead(f, s.next + 1, p.value.digits);
      } else if p.value.Star? {
        FirstOf(f, s.next + 1, "*");
      }
    }
  }

  lemma LengthRead(f: seq<char>, s: Spec, l: Length)
    requires Stands(f, s.next, ShowLength(l))
    requires var j := s.next + |ShowLength(l)|; j < |f| && !Modifier(f[j])
    ensures ParseLength(f, s) == Some(s.(next := s.next + |ShowLength(l)|, flags := match l
      case NoLength => s.flags
      case HH => s.flags.(short := true, char_ := true)
      case H => s.flags.(short := true)
      case L | T | J | Z => s.flags.(long := true)
      case LL => s.flags.(long := true, longLong := true)))
  {
    if l != NoLength {
      FirstOf(f, s.next, ShowLength(l));
      if l == LL || l == HH {
        FirstOf(f, s.next + 1, ShowLength(l)[1..]);
      }
    }
  }

  // ---- Whole specifications

  /** The arguments that the asterisks take. */
  function Stars(d: Directive): nat {
    (if d.width.Star? then 1 else 0) + (if d.precision == Some(Star) then 1 else 0)
  }

  /** The width, without the sign that asks for left adjustment. */
  function WidthOf(d: Directive, args: nat -> Arg, k: nat): nat
    requires WellFormed(d)
  {
    match d.width
    case Absent => 0
    case Given(ds) => (NumberBound(ds); Denote(ds, 10)) % 0x1_0000_0000
    case Star => if IntOf(args(k)) < 0 then -IntOf(args(k)) else IntOf(args(k))
  }

  /** The precision; a negative one from the arguments is taken for zero. */
  function PrecisionOf(d: Directive, args: nat -> Arg, k: nat): nat
    requires WellFormed(d)
  {
    match d.precision
    case None | Some(Absent) => 0
    case Some(Given(ds)) => (NumberBound(ds); Denote(ds, 10)) % 0x1_0000_0000
    case Some(Star) => var p := IntOf(args(if d.width.Star? then k + 1 else k)); if p > 0 then p else 0
  }

  /** Left adjustment is asked for by a flag or by a negative width from the arguments. */
  predicate LeftOf(d: Directive, args: nat -> Arg, k: nat) {
    '-' in d.flags || (d.width.Star? && IntOf(args(k)) < 0)
  }

  /** The flags that a specification stands for, given whether it is to be left-adjusted. */
  function FlagsOf(d: Directive, left: bool): Flags {
    Flags('0' in d.flags, left, '+' in d.flags, ' ' in d.flags, '#' in d.flags, false,
          d.length.HH?, d.length.H? || d.length.HH?, d.length.L? || d.length.LL? || d.length.T? || d.length.J? || d.length.Z?, d.length.LL?, d.precision.Some?, false)
  }

  /** What may come where a part of a specification ends. */
  lemma FirstChars(d: Directive)
    requires WellFormed(d)
    ensures FromLength(d) != [] && FromPrecision(d) != [] && FromWidth(d) != []
    ensures var c := FromLength(d)[0]; !Decimal(c) && !Flag(c) && c != '*' && c != '.'
    ensures var c := FromPrecision(d)[0]; !Decimal(c) && !Flag(c) && c != '*'
    ensures !Flag(FromWidth(d)[0])
  {
    hide AreFlags;
  }

  lemma Places(f: seq<char>, i: nat, d: Directive, b: nat, c: nat, e: nat, x: nat)
    requires Stands(f, i, Show(d))
    requires b == i + 1 + |d.flags| && c == b + |ShowCount(d.width)| && e == c + |ShowPrecision(d.precision)| && x == e + |ShowLength(d.length)|
    ensures Stands(f, i + 1, d.flags) && Stands(f, b, ShowCount(d.width)) && Stands(f, c, ShowPrecision(d.precision)) && Stands(f, e, ShowLength(d.length))
    ensures Stands(f, b, FromWidth(d)) && Stands(f, c, FromPrecision(d)) && Stands(f, e, FromLength(d))
    ensures x == i + |Show(d)| - 1 < |f| && f[x] == d.specifier && f[i] == '%'
  {
    hide WellFormed, AreFlags, Stands, ShowCount, ShowPrecision, ShowLength;
    Apart(f, i, "%", d.flags + FromWidth(d));
    FirstOf(f, i, "%");
    Apart(f, i + 1, d.flags, FromWidth(d));
    Apart(f, b, ShowCount(d.width), FromPrecision(d));
    Apart(f, c, ShowPrecision(d.precision), FromLength(d));
    Apart(f, e, ShowLength(d.length), [d.specifier]);
    FirstOf(f, x, [d.specifier]);
  }

  lemma Follows(f: seq<char>, d: Directive, b: nat, c: nat, e: nat)
    requires WellFormed(d) && Stands(f, b, FromWidth(d)) && Stands(f, c, FromPrecision(d)) && Stands(f, e, FromLength(d))
    ensures b < |f| && !Flag(f[b]) && c < |f| && !Decimal(f[c]) && f[c] != '*'
    ensures e < |f| && !Decimal(f[e]) && f[e] != '*' && f[e] != '.'
  {
    hide *;
    FirstChars(d);
    FirstOf(f, b, FromWidth(d));
    FirstOf(f, c, FromPrecision(d));
    FirstOf(f, e, FromLength(d));
  }

  lemma SpecIs(f: seq<char>, i: nat, args: nat -> Arg, k: nat, s: Spec, t: Spec, u: Spec, v: Spec)
    requires i < |f| && s.width == 0 && s.precision == 0 && s.arg == k && ParseFlags(f, i, NO_FLAGS) == (s.flags, s.next)
    requires s.next <= |f| && ParseWidth(f, s, args) == Some(t) && ParsePrecision(f, t, args) == Some(u) && ParseLength(f, u) == Some(v)
    ensures ParseSpec(f, i, args, k) == Some(v)
  {
    hide ParseFlags, ParseWidth, ParsePrecision, ParseLength, NO_FLAGS;
  }

  /** What is known behind the flags, behind the width, and behind the precision. */
  function Flagged(d: Directive, b: nat, k: nat): Spec {
    Spec(WithFlags(NO_FLAGS, d.flags), 0, 0, b, k)
  }

  function Widened(d: Directive, args: nat -> Arg, c: nat, k: nat): Spec
    requires WellFormed(d)
  {
    Spec(WithFlags(NO_FLAGS, d.flags).(left := LeftOf(d, args, k)), WidthOf(d, args, k), 0, c, if d.width.Star? then k + 1 else k)
  }

  function Precise(d: Directive, args: nat -> Arg, e: nat, k: nat): Spec
    requires WellFormed(d)
  {
    Spec(WithFlags(NO_FLAGS, d.flags).(left := LeftOf(d, args, k), precision := d.precision.Some?), WidthOf(d, args, k),
         PrecisionOf(d, args, k), e, k + Stars(d))
  }

  lemma FlagStage(f: seq<char>, i: nat, d: Directive, k: nat, b: nat)
    requires WellFormed(d) && Stands(f, i, d.flags) && b == i + |d.flags| && b < |f| && !Flag(f[b])
    ensures var s := Flagged(d, b, k);
      ParseFlags(f, i, NO_FLAGS) == (s.flags, s.next) && s.width == 0 && s.precision == 0 && s.arg == k && s.next == b
  {
    hide AreFlags, Stands, ParseFlags, WithFlags, NO_FLAGS, IsNumber, Flag, Decimal, Modifier;
    FlagsRead(f, i, d.flags, NO_FLAGS);
  }

  lemma WidthStage(f: seq<char>, d: Directive, args: nat -> Arg, k: nat, b: nat, c: nat)
    requires WellFormed(d) && Stands(f, b, ShowCount(d.width)) && c == b + |ShowCount(d.width)|
    requires c < |f| && !Decimal(f[c]) && f[c] != '*'
    ensures Flagged(d, b, k).next == b <= |f| && ParseWidth(f, Flagged(d, b, k), args) == Some(Widened(d, args, c, k))
  {
    hide AreFlags, Stands, ParseWidth, Denote, IntOf;
    WidthRead(f, Flagged(d, b, k), d.width, args);
  }

  lemma PrecisionStage(f: seq<char>, d: Directive, args: nat -> Arg, k: nat, c: nat, e: nat)
    requires WellFormed(d) && Stands(f, c, ShowPrecision(d.precision)) && e == c + |ShowPrecision(d.precision)|
    requires e < |f| && !Decimal(f[e]) && f[e] != '*' && f[e] != '.'
    ensures Widened(d, args, c, k).next == c <= |f| && ParsePrecision(f, Widened(d, args, c, k), args) == Some(Precise(d, args, e, k))
  {
    hide *;
    PrecisionForm(d);
    StageIs(d, args, k, c, e);
    PrecisionRead(f, Widened(d, args, c, k), d.precision, args);
    PrecisionTaken(d, args, k, Widened(d, args, c, k), Precise(d, args, e, k));
  }

  lemma StageIs(d: Directive, args: nat -> Arg, k: nat, c: nat, e: nat)
    requires WellFormed(d) && e == c + |ShowPrecision(d.precision)|
    ensures var t, u := Widened(d, args, c, k), Precise(d, args, e, k);
      && t.precision == 0 && !t.flags.precision && t.arg == (if d.width.Star? then k + 1 else k) && t.next == c
      && u == Spec(t.flags.(precision := d.precision.Some?), t.width, PrecisionOf(d, args, k), t.next + |ShowPrecision(d.precision)|, k + Stars(d))
  {
    hide LeftOf, WidthOf, PrecisionOf, Stars, ShowPrecision;
  }

  lemma PrecisionForm(d: Directive)
    requires WellFormed(d)
    ensures d.precision.Some? && d.precision.value.Given? ==> IsNumber(d.precision.value.digits) && d.precision.value.digits != []
  {
  }

  lemma PrecisionTaken(d: Directive, args: nat -> Arg, k: nat, t: Spec, u: Spec)
    requires WellFormed(d) && t.precision == 0 && !t.flags.precision && t.arg == if d.width.Star? then k + 1 else k
    requires u == Spec(t.flags.(precision := d.precision.Some?), t.width, PrecisionOf(d, args, k), t.next + |ShowPrecision(d.precision)|, k + Stars(d))
    ensures d.precision.Some? && d.precision.value.Given? ==> Denote(d.precision.value.digits, 10) >= 0
    ensures u == match d.precision
      case None => t
      case Some(Absent) => t.(flags := t.flags.(precision := true), next := t.next + 1)
      case Some(Given(ds)) => t.(flags := t.flags.(precision := true), precision := Denote(ds, 10) % 0x1_0000_0000,
                                  next := t.next + 1 + |ds|)
      case Some(Star) => t.(flags := t.flags.(precision := true), next := t.next + 2, arg := t.arg + 1,
                            precision := if IntOf(args(t.arg)) > 0 then IntOf(args(t.arg)) else 0)
  {
    if d.precision.Some? && d.precision.value.Given? {
      NumberBound(d.precision.value.digits);
    }
    hide AreFlags, Denote, IntOf, Decimal, Flag, Modifier, IsNumber;
  }

  lemma LengthStage(f: seq<char>, d: Directive, args: nat -> Arg, k: nat, e: nat, x: nat)
    requires WellFormed(d) && Stands(f, e, ShowLength(d.length)) && x == e + |ShowLength(d.length)|
    requires x < |f| && f[x] == d.specifier
    ensures Precise(d, args, e, k).next == e <= |f|
    ensures ParseLength(f, Precise(d, args, e, k))
      == Some(Spec(FlagsOf(d, LeftOf(d, args, k)), WidthOf(d, args, k), PrecisionOf(d, args, k), x, k + Stars(d)))
  {
    hide Stands, ParseLength, WidthOf, PrecisionOf, LeftOf, Stars;
    LengthRead(f, Precise(d, args, e, k), d.length);
  }

  lemma SpecReadAt(f: seq<char>, i: nat, d: Directive, args: nat -> Arg, k: nat, b: nat, c: nat, e: nat, x: nat)
    requires WellFormed(d) && Stands(f, i, d.flags) && Stands(f, b, ShowCount(d.width)) && Stands(f, c, ShowPrecision(d.precision)) && Stands(f, e, ShowLength(d.length))
    requires b == i + |d.flags| && c == b + |ShowCount(d.width)| && e == c + |ShowPrecision(d.precision)| && x == e + |ShowLength(d.length)|
    requires x < |f| && f[x] == d.specifier && !Flag(f[b]) && !Decimal(f[c]) && f[c] != '*'
    requires !Decimal(f[e]) && f[e] != '*' && f[e] != '.'
    ensures ParseSpec(f, i, args, k)
      == Some(Spec(FlagsOf(d, LeftOf(d, args, k)), WidthOf(d, args, k), PrecisionOf(d, args, k), x, k + Stars(d)))
  {
    hide *;
    FlagStage(f, i, d, k, b);
    WidthStage(f, d, args, k, b, c);
    PrecisionStage(f, d, args, k, c, e);
    LengthStage(f, d, args, k, e, x);
    SpecIs(f, i, args, k, Flagged(d, b, k), Widened(d, args, c, k), Precise(d, args, e, k),
           Spec(FlagsOf(d, LeftOf(d, args, k)), WidthOf(d, args, k), PrecisionOf(d, args, k), x, k + Stars(d)));
  }

  /** Every specification is read as what it stands for. */
  lemma SpecRead(f: seq<char>, i: nat, d: Directive, args: nat -> Arg, k: nat)
    requires Stands(f, i, Show(d)) && WellFormed(d)
    ensures i + 2 <= i + |Show(d)| <= |f| && f[i] == '%' && f[i + |Show(d)| - 1] == d.specifier
    ensures ParseSpec(f, i + 1, args, k) == Some(Spec(FlagsOf(d, LeftOf(d, args, k)), WidthOf(d, args, k),
      PrecisionOf(d, args, k), i + |Show(d)| - 1, k + Stars(d)))
  {
    hide *;
    var b := i + 1 + |d.flags|;
    var c := b + |ShowCount(d.width)|;
    var e := c + |ShowPrecision(d.precision)|;
    var x := e + |ShowLength(d.length)|;
    Places(f, i, d, b, c, e, x);
    Follows(f, d, b, c, e);
    SpecReadAt(f, i + 1, d, args, k, b, c, e, x);
  }

  // ---- Formats

  /** What a specification prints, given the first of its arguments. */
  function TextOf(d: Directive, args: nat -> Arg, k: nat): seq<char>
    requires WellFormed(d)
  {
    Format(Show(d), 0, args, k).text
  }

  /** The arguments that a specification uses up. */
  function Uses(d: Directive): nat {
    Stars(d) + match d.specifier case 'd' | 'i' | 'u' | 'x' | 'X' | 'o' | 'b' | 'c' | 's' | 'p' | 'n' => 1 case _ => 0
  }

  /** A specification as the conversions take it. */
  function Taken(d: Directive, args: nat -> Arg, k: nat): Spec
    requires WellFormed(d)
  {
    Spec(FlagsOf(d, LeftOf(d, args, k)), WidthOf(d, args, k), PrecisionOf(d, args, k), 0, k + Stars(d))
  }

  /** Width, precision and adjustment in terms of the bits of the arguments. */
  lemma CountsTaken(d: Directive, args: nat -> Arg, k: nat, x: nat, y: nat)
    requires WellFormed(d) && x == args(k).bits % 0x1_0000_0000
    requires y == args(if d.width.Star? then k + 1 else k).bits % 0x1_0000_0000
    ensures d.width.Absent? ==> WidthOf(d, args, k) == 0
    ensures d.width.Given? ==> WidthOf(d, args, k) == Denote(d.width.digits, 10) % 0x1_0000_0000
    ensures d.width.Star? ==> WidthOf(d, args, k) == if x < 0x8000_0000 then x else 0x1_0000_0000 - x
    ensures LeftOf(d, args, k) <==> '-' in d.flags || (d.width.Star? && x >= 0x8000_0000)
    ensures d.precision.None? || d.precision.value.Absent? ==> PrecisionOf(d, args, k) == 0
    ensures d.precision.Some? && d.precision.value.Given? ==> PrecisionOf(d, args, k) == Denote(d.precision.value.digits, 10) % 0x1_0000_0000
    ensures d.precision.Some? && d.precision.value.Star? ==> PrecisionOf(d, args, k) == if y < 0x8000_0000 then y else 0
  {
    hide AreFlags, Denote;
  }

  lemma ConversionMoved(c: char, s: Spec, args: nat -> Arg)
    ensures Conversion(c, s, args).0 == Conversion(c, s.(next := 0), args).0
    ensures Conversion(c, s, args).1 == s.arg + match c case 'd' | 'i' | 'u' | 'x' | 'X' | 'o' | 'b' | 'c' | 's' | 'p' | 'n' => 1 case _ => 0
  {
    hide Integer, OutRev, IntegerFlags, ArgValue, BaseOf, Abs;
  }

  lemma FormatStep(f: seq<char>, i: nat, args: nat -> Arg, k: nat, s: Spec)
    requires i + 1 < |f| && f[i] == '%' && ParseSpec(f, i + 1, args, k) == Some(s) && s.next < |f|
    ensures Format(f, i, args, k)
      == var (text, k') := Conversion(f[s.next], s, args);
         var rest := Format(f, s.next + 1, args, k');
         Output(text + rest.text, rest.overrun)
  {
    hide ParseSpec, Conversion;
  }

  lemma FormatDirective(f: seq<char>, i: nat, d: Directive, args: nat -> Arg, k: nat)
    requires Stands(f, i, Show(d)) && WellFormed(d)
    ensures i + |Show(d)| <= |f|
    ensures Format(f, i, args, k)
      == var rest := Format(f, i + |Show(d)|, args, k + Uses(d));
         Output(Conversion(d.specifier, Taken(d, args, k), args).0 + rest.text, rest.overrun)
  {
    hide *;
    SpecRead(f, i, d, args, k);
    var s := Spec(FlagsOf(d, LeftOf(d, args, k)), WidthOf(d, args, k), PrecisionOf(d, args, k), i + |Show(d)| - 1, k + Stars(d));
    FormatStep(f, i, args, k, s);
    ConversionMoved(d.specifier, s, args);
    TakenIs(d, args, k, s);
  }

  lemma TakenIs(d: Directive, args: nat -> Arg, k: nat, s: Spec)
    requires WellFormed(d)
    requires s == Spec(FlagsOf(d, LeftOf(d, args, k)), WidthOf(d, args, k), PrecisionOf(d, args, k), s.next, k + Stars(d))
    ensures Taken(d, args, k) == s.(next := 0)
    ensures k + Uses(d) == s.arg + match d.specifier case 'd' | 'i' | 'u' | 'x' | 'X' | 'o' | 'b' | 'c' | 's' | 'p' | 'n' => 1 case _ => 0
  {
    hide FlagsOf, LeftOf, WidthOf, PrecisionOf, WellFormed, Stars;
  }

  lemma FormatEnd(f: seq<char>, args: nat -> Arg, k: nat)
    ensures Format(f, |f|, args, k) == Output([], false)
  {
  }

  lemma TextIs(d: Directive, args: nat -> Arg, k: nat)
    requires WellFormed(d)
    ensures TextOf(d, args, k) == Conversion(d.specifier, Taken(d, args, k), args).0
  {
    var f := Show(d);
    hide *;
    assert Stands(f, 0, Show(d)) by { Whole(f); }
    FormatDirective(f, 0, d, args, k);
    FormatEnd(f, args, k + Uses(d));
    TextDef(d, args, k);
    assert Conversion(d.specifier, Taken(d, args, k), args).0 + [] == Conversion(d.specifier, Taken(d, args, k), args).0;
  }

  lemma TextDef(d: Directive, args: nat -> Arg, k: nat)
    requires WellFormed(d)
    ensures TextOf(d, args, k) == Format(Show(d), 0, args, k).text
  {
    hide Format, Show;
  }

  lemma Whole(f: seq<char>)
    ensures Stands(f, 0, f)
  {
    assert f[0..|f|] == f;
  }

  /** A specification in any format prints what it prints alone, and what follows it starts with the argument
      behind those that it uses up. */
  lemma Splits(f: seq<char>, i: nat, d: Directive, args: nat -> Arg, k: nat)
    requires Stands(f, i, Show(d)) && WellFormed(d)
    ensures i + |Show(d)| <= |f|
    ensures Format(f, i, args, k)
      == var rest := Format(f, i + |Show(d)|, args, k + Uses(d)); Output(TextOf(d, args, k) + rest.text, rest.overrun)
  {
    hide *;
    FormatDirective(f, i, d, args, k);
    TextIs(d, args, k);
  }

  datatype Piece = Letter(c: char) | Conv(d: Directive)

  predicate AllFormed(ps: seq<Piece>) {
    forall j :: 0 <= j < |ps| ==> if ps[j].Conv? then WellFormed(ps[j].d) else ps[j].c != '%'
  }

  function ShowPiece(p: Piece): seq<char> {
    match p case Letter(c) => [c] case Conv(d) => Show(d)
  }

  function ShowAll(ps: seq<Piece>): seq<char> {
    if ps == [] then [] else ShowPiece(ps[0]) + ShowAll(ps[1..])
  }

  /** What the pieces print, one after another; each takes its arguments where the one before it has left off. */
  function Texts(ps: seq<Piece>, args: nat -> Arg, k: nat): seq<char>
    requires AllFormed(ps)
  {
    if ps == [] then []
    else match ps[0]
      case Letter(c) => [c] + Texts(ps[1..], args, k)
      case Conv(d) => TextOf(d, args, k) + Texts(ps[1..], args, k + Uses(d))
  }

  lemma FormatLetter(f: seq<char>, i: nat, args: nat -> Arg, k: nat)
    requires i < |f| && f[i] != '%'
    ensures Format(f, i, args, k) == Output([f[i]] + Format(f, i + 1, args, k).text, Format(f, i + 1, args, k).overrun)
  {
  }

  lemma Behind(f: seq<char>, i: nat, a: seq<char>, b: seq<char>)
    requires i <= |f| && f[i..] == a + b
    ensures i + |a| <= |f| && Stands(f, i, a) && f[i + |a|..] == b
  {
    assert f[i..i + |a|] == f[i..][..|a|] == a;
    assert f[i + |a|..] == f[i..][|a|..] == b;
  }

  lemma PiecesAre(ps: seq<Piece>, args: nat -> Arg, k: nat)
    requires AllFormed(ps)
    ensures ps == [] ==> ShowAll(ps) == [] && Texts(ps, args, k) == []
    ensures ps != [] ==>
      && AllFormed(ps[1..]) && ShowAll(ps) == ShowPiece(ps[0]) + ShowAll(ps[1..])
      && match ps[0]
         case Letter(c) => c != '%' && ShowPiece(ps[0]) == [c] && Texts(ps, args, k) == [c] + Texts(ps[1..], args, k)
         case Conv(d) => WellFormed(d) && ShowPiece(ps[0]) == Show(d) && Texts(ps, args, k) == TextOf(d, args, k) + Texts(ps[1..], args, k + Uses(d))
  {
    hide WellFormed, Show, TextOf, Uses;
  }

  /** A format of letters and specifications prints them in order, and arguments are used in order. */
  lemma {:induction false} InOrder(f: seq<char>, i: nat, ps: seq<Piece>, args: nat -> Arg, k: nat)
    requires i <= |f| && f[i..] == ShowAll(ps) && AllFormed(ps)
    ensures Format(f, i, args, k) == Output(Texts(ps, args, k), false)
    decreases |ps|
  {
    hide *;
    PiecesAre(ps, args, k);
    if ps == [] {
      FormatEnd(f, args, k);
    } else {
      var head, rest := ShowPiece(ps[0]), ShowAll(ps[1..]);
      Behind(f, i, head, rest);
      match ps[0]
      case Letter(c) =>
        FirstOf(f, i, head);
        FormatLetter(f, i, args, k);
        InOrder(f, i + 1, ps[1..], args, k);
      case Conv(d) =>
        Splits(f, i, d, args, k);
        InOrder(f, i + |head|, ps[1..], args, k + Uses(d));
    }
  }

  /** The printer does so from the beginning of a format. */
  lemma Printed(ps: seq<Piece>, args: nat -> Arg)
    requires AllFormed(ps)
    ensures Format(ShowAll(ps), 0, args, 0) == Output(Texts(ps, args, 0), false)
  {
    InOrder(ShowAll(ps), 0, ps, args, 0);
  }

  // ---- Formats that end inside a specification

  /** A specification without its specifier. */
  function Begun(d: Directive): seq<char> {
    "%" + (d.flags + (ShowCount(d.width) + (ShowPrecision(d.precision) + ShowLength(d.length))))
  }

  lemma WidthEnds(f: seq<char>, s: Spec, n: Count, args: nat -> Arg)
    requires Stands(f, s.next, ShowCount(n)) && s.next + |ShowCount(n)| == |f|
    requires n.Given? ==> IsNumber(n.digits) && n.digits != []
    ensures if n.Star? then ParseWidth(f, s, args) == None else ParseWidth(f, s, args).Some? && ParseWidth(f, s, args).value.next == |f|
  {
    hide Denote, Atou;
    if n.Given? {
      FirstOf(f, s.next, n.digits);
      NumberRead(f, s.next, n.digits);
    } else if n.Star? {
      FirstOf(f, s.next, "*");
    }
  }

  lemma PrecisionEnds(f: seq<char>, s: Spec, p: Option<Count>, args: nat -> Arg)
    requires Stands(f, s.next, ShowPrecision(p)) && s.next + |ShowPrecision(p)| == |f|
    requires p.Some? && p.value.Given? ==> IsNumber(p.value.digits) && p.value.digits != []
    ensures if p.Some? && !p.value.Given? then ParsePrecision(f, s, args) == None
            else ParsePrecision(f, s, args).Some? && ParsePrecision(f, s, args).value.next == |f|
  {
    hide Denote, Atou;
    if p.Some? {
      Apart(f, s.next, ".", ShowCount(p.value));
      FirstOf(f, s.next, ".");
      if p.value.Given? {
        FirstOf(f, s.next + 1, p.value.digits);
        NumberRead(f, s.next + 1, p.value.digits);
      } else if p.value.Star? {
        FirstOf(f, s.next + 1, "*");
      }
    }
  }

  lemma LengthEnds(f: seq<char>, s: Spec, l: Length)
    requires Stands(f, s.next, ShowLength(l)) && s.next + |ShowLength(l)| == |f|
    ensures ParseLength(f, s) == if l == NoLength then Some(s) else None
  {
    if l != NoLength {
      FirstOf(f, s.next, ShowLength(l));
      if l == LL || l == HH {
        FirstOf(f, s.next + 1, ShowLength(l)[1..]);
      }
    }
  }

  /** The end of the format is not noticed in flags and in numbers. */
  predicate EndsUnnoticed(d: Directive) {
    && d.length == NoLength
    && match d.precision
       case Some(p) => p.Given?
       case None => d.width.Given? || (d.width.Absent? && d.flags != [])
  }

  lemma BegunStands(f: seq<char>, i: nat, d: Directive, b: nat, c: nat, e: nat)
    requires Stands(f, i, Begun(d)) && i + |Begun(d)| == |f|
    requires b == i + 1 + |d.flags| && c == b + |ShowCount(d.width)| && e == c + |ShowPrecision(d.precision)|
    ensures i < |f| && f[i] == '%' && Stands(f, i + 1, d.flags) && Stands(f, b, ShowCount(d.width)) && Stands(f, c, ShowPrecision(d.precision))
    ensures Stands(f, e, ShowLength(d.length)) && e + |ShowLength(d.length)| == |f|
  {
    hide Stands, CharAt, ShowCount, ShowPrecision, ShowLength;
    var w, p, l := ShowCount(d.width), ShowPrecision(d.precision), ShowLength(d.length);
    Apart(f, i, "%", d.flags + (w + (p + l)));
    FirstOf(f, i, "%");
    Apart(f, i + 1, d.flags, w + (p + l));
    Apart(f, b, w, p + l);
    Apart(f, c, p, l);
  }

  lemma PartsShown(d: Directive)
    ensures var p, l := ShowPrecision(d.precision), ShowLength(d.length);
      && (p != [] ==> p[0] == '.') && (l != [] ==> !Decimal(l[0]) && !Flag(l[0]) && l[0] != '*' && l[0] != '.')
      && !Decimal('.') && !Flag('.') && !Flag('*')
    ensures d.width.Given? ==> ShowCount(d.width) == d.width.digits
    ensures d.width.Star? ==> ShowCount(d.width) == "*"
    ensures d.width.Absent? ==> ShowCount(d.width) == ""
  {
  }

  lemma BegunPlaces(f: seq<char>, i: nat, d: Directive, b: nat, c: nat, e: nat)
    requires Stands(f, i, Begun(d)) && i + |Begun(d)| == |f|
    requires b == i + 1 + |d.flags| && c == b + |ShowCount(d.width)| && e == c + |ShowPrecision(d.precision)|
    requires d.width.Given? ==> d.width.digits != []
    ensures i < |f| && f[i] == '%' && Stands(f, i + 1, d.flags) && Stands(f, b, ShowCount(d.width)) && Stands(f, c, ShowPrecision(d.precision))
    ensures Stands(f, e, ShowLength(d.length)) && e + |ShowLength(d.length)| == |f|
    ensures b < |f| && (d.width.Given? ==> !Flag(d.width.digits[0])) ==> !Flag(f[b])
    ensures c < |f| ==> !Decimal(f[c]) && f[c] != '*'
    ensures e < |f| ==> !Decimal(f[e]) && f[e] != '*' && f[e] != '.'
  {
    hide *;
    BegunStands(f, i, d, b, c, e);
    PartsShown(d);
    var w, p, l := ShowCount(d.width), ShowPrecision(d.precision), ShowLength(d.length);
    if l != [] {
      FirstOf(f, e, l);
    }
    if p != [] {
      FirstOf(f, c, p);
    }
    if w != [] {
      FirstOf(f, b, w);
    }
  }

  /** The parts of a specification that is not finished. */
  predicate WellBegun(d: Directive) {
    && AreFlags(d.flags)
    && (d.width.Given? ==> IsNumber(d.width.digits) && d.width.digits != [] && !Flag(d.width.digits[0]))
    && (d.precision.Some? && d.precision.value.Given? ==> IsNumber(d.precision.value.digits) && d.precision.value.digits != [])
  }

  /** What is left of a specification behind its width. */
  lemma PrecisionLeft(f: seq<char>, s: Spec, d: Directive, args: nat -> Arg, c: nat, e: nat)
    requires WellBegun(d) && s.next == c && s.precision == 0 && c <= |f| && e == c + |ShowPrecision(d.precision)|
    requires Stands(f, c, ShowPrecision(d.precision)) && Stands(f, e, ShowLength(d.length)) && e + |ShowLength(d.length)| == |f|
    requires e < |f| ==> !Decimal(f[e]) && f[e] != '*' && f[e] != '.'
    ensures var r := ParsePrecision(f, s, args);
      if r == None then d.length == NoLength && d.precision.Some? && !d.precision.value.Given?
      else
        && r.value.next <= |f|
        && var t := ParseLength(f, r.value);
        && (d.length == NoLength ==> d.precision.None? || d.precision.value.Given?)
        && if d.length == NoLength then t.Some? && t.value.next == |f| else t == None
  {
    hide ParsePrecision, ParseLength, Stands, AreFlags, IsNumber, Denote, IntOf, Decimal, Flag;
    if d.length == NoLength {
      PrecisionEnds(f, s, d.precision, args);
      var r := ParsePrecision(f, s, args);
      if r.Some? {
        AtEnd(f);
        LengthEnds(f, r.value, NoLength);
      }
    } else {
      LengthShown(d.length);
      PrecisionRead(f, s, d.precision, args);
      LengthEnds(f, ParsePrecision(f, s, args).value, d.length);
    }
  }

  lemma AtEnd(f: seq<char>)
    ensures Stands(f, |f|, [])
  {
  }

  lemma LengthShown(l: Length)
    requires l != NoLength
    ensures |ShowLength(l)| > 0
  {
  }

  /** What follows the flags. */
  function Rest(f: seq<char>, s: Spec, args: nat -> Arg): Option<Spec>
    requires s.next <= |f|
  {
    match ParseWidth(f, s, args)
    case None => None
    case Some(t) =>
      match ParsePrecision(f, t, args)
      case None => None
      case Some(u) => ParseLength(f, u)
  }

  lemma RestIs(f: seq<char>, s: Spec, args: nat -> Arg)
    requires s.next <= |f|
    ensures ParseWidth(f, s, args).Some? ==> ParseWidth(f, s, args).value.next <= |f| && ParseWidth(f, s, args).value.precision == s.precision
    ensures Rest(f, s, args) == if ParseWidth(f, s, args) == None then None
      else if ParsePrecision(f, ParseWidth(f, s, args).value, args) == None then None
      else ParseLength(f, ParsePrecision(f, ParseWidth(f, s, args).value, args).value)
  {
    hide ParsePrecision, ParseLength, Atou, AsInt32;
  }

  lemma WidthLeft(f: seq<char>, s: Spec, d: Directive, args: nat -> Arg, c: nat, e: nat)
    requires WellBegun(d) && s.width == 0 && s.precision == 0 && s.next <= |f| && c == s.next + |ShowCount(d.width)| && e == c + |ShowPrecision(d.precision)|
    requires Stands(f, s.next, ShowCount(d.width)) && Stands(f, c, ShowPrecision(d.precision))
    requires Stands(f, e, ShowLength(d.length)) && e + |ShowLength(d.length)| == |f|
    requires c < |f| ==> !Decimal(f[c]) && f[c] != '*'
    requires e < |f| ==> !Decimal(f[e]) && f[e] != '*' && f[e] != '.'
    ensures var r := Rest(f, s, args);
      if d.length == NoLength && (if d.precision.Some? then d.precision.value.Given? else !d.width.Star?) then r.Some? && r.value.next == |f|
      else r == None
  {
    hide *;
    RestIs(f, s, args);
    WidthNumber(d);
    NothingLeft(d, c, e, |f|);
    if c == |f| {
      WidthEnds(f, s, d.width, args);
    } else {
      WidthRead(f, s, d.width, args);
      WidthMoves(s, d.width, args);
    }
    var t := ParseWidth(f, s, args);
    if t.Some? {
      PrecisionLeft(f, t.value, d, args, c, e);
    }
  }

  lemma WidthNumber(d: Directive)
    requires WellBegun(d)
    ensures d.width.Given? ==> IsNumber(d.width.digits) && d.width.digits != []
  {
  }

  lemma NothingLeft(d: Directive, c: nat, e: nat, n: nat)
    requires e == c + |ShowPrecision(d.precision)| && e + |ShowLength(d.length)| == n
    ensures c == n <==> d.precision == None && d.length == NoLength
  {
  }

  lemma WidthMoves(s: Spec, n: Count, args: nat -> Arg)
    requires n.Given? ==> Denote(n.digits, 10) >= 0
    ensures |ShowCount(n)| == match n case Absent => 0 case Given(ds) => |ds| case Star => 1
  {
    hide Denote;
  }

  lemma BegunSize(d: Directive)
    ensures |Begun(d)| == 1 + |d.flags| + |ShowCount(d.width)| + |ShowPrecision(d.precision)| + |ShowLength(d.length)|
    ensures |Begun(d)| == 1 <==> d.flags == [] && d.width != Star && (d.width.Given? ==> d.width.digits == []) && d.precision == None && d.length == NoLength
  {
  }

  lemma FormatEnds(f: seq<char>, i: nat, args: nat -> Arg, k: nat, s: Spec)
    requires i < |f| && f[i] == '%'
    requires i + 1 < |f| ==> ParseFlags(f, i + 1, NO_FLAGS) == (s.flags, s.next) && s.width == 0 && s.precision == 0 && s.arg == k && s.next <= |f|
    ensures i + 1 == |f| ==> Format(f, i, args, k) == Output([], false)
    ensures i + 1 < |f| && Rest(f, s, args) == None ==> Format(f, i, args, k) == Output([], false)
    ensures i + 1 < |f| && Rest(f, s, args).Some? && Rest(f, s, args).value.next == |f| ==> Format(f, i, args, k) == Output([NUL], true)
  {
    hide ParseFlags, ParseWidth, ParsePrecision, ParseLength, Conversion, NO_FLAGS, NUL;
    if i + 1 < |f| {
      assert ParseSpec(f, i + 1, args, k) == Rest(f, s, args);
      hide ParseSpec, Rest;
    }
  }

  /** A format that ends inside a specification prints nothing for it, or its terminator where the end is not noticed. */
  lemma Unfinished(f: seq<char>, i: nat, d: Directive, args: nat -> Arg, k: nat)
    requires Stands(f, i, Begun(d)) && i + |Begun(d)| == |f| && WellBegun(d)
    ensures i < |f| && Format(f, i, args, k) == if EndsUnnoticed(d) then Output([NUL], true) else Output([], false)
  {
    hide *;
    BegunSize(d);
    BegunFlags(d);
    var b := i + 1 + |d.flags|;
    var c := b + |ShowCount(d.width)|;
    var e := c + |ShowPrecision(d.precision)|;
    BegunPlaces(f, i, d, b, c, e);
    var s := Spec(WithFlags(NO_FLAGS, d.flags), 0, 0, b, k);
    if i + 1 < |f| {
      FlagsRead(f, i + 1, d.flags, NO_FLAGS);
      WidthLeft(f, s, d, args, c, e);
    }
    FormatEnds(f, i, args, k, s);
    UnnoticedIs(d);
  }

  lemma BegunFlags(d: Directive)
    requires WellBegun(d)
    ensures AreFlags(d.flags) && (d.width.Given? ==> d.width.digits != [] && !Flag(d.width.digits[0]))
  {
    hide Flag;
  }

  lemma UnnoticedIs(d: Directive)
    ensures EndsUnnoticed(d)
      == (d.length == NoLength && if d.precision.Some? then d.precision.value.Given? else d.width.Given? || (d.width.Absent? && d.flags != []))
  {
  }
}
