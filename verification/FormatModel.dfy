/**
 * What rpl_vsnprintf prints: the texts of its integer and string conversions, and the meaning of a whole format
 * as a sequence of literal characters and directives (section 7.19.6.1 of ISO C99, as far as the code follows it).
 */
module FormatModel {
  import opened Bits

  datatype Option<T> = None | Some(value: T)

  const INT_MAX: nat := 0x7FFF_FFFF

  function Max(a: int, b: int): int {
    if a >= b then a else b
  }

  function AtLeastZero(a: int): nat {
    if a < 0 then 0 else a
  }

  function Repeat(c: char, n: nat): (r: string)
    ensures |r| == n
  {
    seq(n, i => c)
  }

  /** An argument: a number, a string or null, or a floating-point number by the characters it prints. */
  datatype Arg = Num(v: int) | Str(s: Option<string>) | Real(text: string, tooBig: bool)

  datatype Flags = Flags(minus: bool, plus: bool, space: bool, num: bool, zero: bool, quote: bool)

  const NOFLAGS := Flags(false, false, false, false, false, false)

  datatype Modifier = NoMod | CharMod | ShortMod | LongMod | LLongMod | LDouble | SizeMod | PtrDiff | IntMax

  // ----- numbers -----

  function Digit(d: nat, caps: bool): char
    requires d < 16
  {
    if caps then "0123456789ABCDEF"[d] else "0123456789abcdef"[d]
  }

  /** A number written in a base, the most significant digit first; zero has one digit. */
  function Digits(u: nat, base: nat, caps: bool): (r: string)
    requires 2 <= base <= 16
    ensures |r| > 0
  {
    if u < base then [Digit(u, caps)]
    else
      Smaller(u, base);
      Digits(u / base, base, caps) + [Digit(u % base, caps)]
  }

  lemma Smaller(u: nat, base: nat)
    requires 2 <= base <= u
    ensures 0 < u / base < u
  {
    var q := u / base;
    assert u == base * q + u % base;
    if q <= 0 {
      MulLe(base, q, 0);
      assert false;
    }
    MulLe(q, 2, base);
  }

  /** The number of separators printed among `n` digits (getnumsep). */
  function NumSep(n: nat): nat {
    if n == 0 then 0 else (n - (if n % 3 == 0 then 1 else 0)) / 3
  }

  /** The separator before the last `n` digits, if there is one. */
  function Comma(n: nat): string {
    if n > 0 && n % 3 == 0 then "," else ""
  }

  /** Digits with a separator after each that is followed by a multiple of three. */
  function Grouped(d: string): string {
    if d == "" then "" else [d[0]] + (Comma(|d| - 1) + Grouped(d[1..]))
  }

  lemma {:induction false} GroupedLength(d: string)
    ensures |Grouped(d)| == |d| + NumSep(|d|)
  {
    if d != "" {
      GroupedLength(d[1..]);
    }
  }

  lemma {:induction false} Ungrouped(d: string)
    requires |d| <= 3
    ensures Grouped(d) == d
  {
    if d != "" {
      Ungrouped(d[1..]);
      assert "" + d[1..] == d[1..] && d == [d[0]] + d[1..];
    }
  }

  function DigitValue(c: char): nat {
    if '0' <= c <= '9' then c as int - '0' as int
    else if 'a' <= c <= 'f' then c as int - 'a' as int + 10
    else if 'A' <= c <= 'F' then c as int - 'A' as int + 10
    else 0
  }

  /** Reading digits in a base, after the value `v`; separators are passed over. */
  function Read(s: string, base: nat, v: nat): nat {
    if s == "" then v
    else if s[0] == ',' then Read(s[1..], base, v)
    else Read(s[1..], base, v * base + DigitValue(s[0]))
  }

  lemma {:induction false} ReadConcat(s: string, t: string, base: nat, v: nat)
    ensures Read(s + t, base, v) == Read(t, base, Read(s, base, v))
  {
    if s == "" {
      assert s + t == t;
    } else {
      assert (s + t)[1..] == s[1..] + t;
      ReadConcat(s[1..], t, base, if s[0] == ',' then v else v * base + DigitValue(s[0]));
    }
  }

  lemma {:induction false} ReadZeros(n: nat, base: nat)
    ensures Read(Repeat('0', n), base, 0) == 0
  {
    if n > 0 {
      assert Repeat('0', n)[1..] == Repeat('0', n - 1);
      ReadZeros(n - 1, base);
    }
  }

  lemma ReadStep(s: string, base: nat, v: nat)
    requires s != ""
    ensures Read(s, base, v) == Read(s[1..], base, if s[0] == ',' then v else v * base + DigitValue(s[0]))
  {}

  lemma {:induction false} ReadGrouped(d: string, base: nat, v: nat)
    requires ',' !in d
    ensures Read(Grouped(d), base, v) == Read(d, base, v)
  {
    hide Read, DigitValue;
    if d != "" {
      var sep, rest := Comma(|d| - 1), Grouped(d[1..]);
      var w := v * base + DigitValue(d[0]);
      assert d[0] in d;
      ReadGrouped(d[1..], base, w);
      ReadStep(d, base, v);
      ReadStep(Grouped(d), base, v);
      assert Grouped(d)[1..] == sep + rest;
      if sep == "," {
        ReadStep(sep + rest, base, w);
        assert (sep + rest)[1..] == rest;
      } else {
        assert sep + rest == rest;
      }
    }
  }

  lemma DigitRead(d: nat, caps: bool)
    requires d < 16
    ensures DigitValue(Digit(d, caps)) == d && Digit(d, caps) != ','
  {}

  /** The digits read back. */
  lemma {:induction false} ReadDigits(u: nat, base: nat, caps: bool)
    requires 2 <= base <= 16
    ensures Read(Digits(u, base, caps), base, 0) == u && ',' !in Digits(u, base, caps)
  {
    hide Read, Digit, DigitValue;
    if u < base {
      DigitRead(u, caps);
      ReadOne(Digit(u, caps), base, 0);
    } else {
      Smaller(u, base);
      ReadDigits(u / base, base, caps);
      DigitRead(u % base, caps);
      ReadConcat(Digits(u / base, base, caps), [Digit(u % base, caps)], base, 0);
      ReadOne(Digit(u % base, caps), base, u / base);
      Divided(u, base);
    }
  }

  lemma Divided(u: nat, base: nat)
    requires base > 0
    ensures u / base * base + u % base == u
  {}

  lemma ReadOne(c: char, base: nat, v: nat)
    requires c != ','
    ensures Read([c], base, v) == v * base + DigitValue(c)
  {
    assert [c][1..] == "";
    ReadStep([c], base, v);
  }

  /** The parts of a printed integer; the spaces go before the sign or after the digits. */
  datatype Layout = Layout(spaces: nat, left: bool, sign: string, prefix: string, zeros: nat, digits: string)

  function TextOf(l: Layout): string {
    (if l.left then "" else Repeat(' ', l.spaces)) + l.sign + l.prefix + Repeat('0', l.zeros) + l.digits +
    (if l.left then Repeat(' ', l.spaces) else "")
  }

  function SignOf(negative: bool, f: Flags): string {
    if negative then "-" else if f.plus then "+" else if f.space then " " else ""
  }

  /** The precision after `#` has asked for a leading zero in base eight. */
  function Precision(u: nat, base: nat, pos: nat, precision: int, f: Flags): int {
    if f.num && u != 0 && base == 8 && precision <= pos then pos + 1 else precision
  }

  function Prefix(u: nat, base: nat, caps: bool, f: Flags): string {
    if f.num && u != 0 && base == 16 then (if caps then "0X" else "0x") else ""
  }

  /** The layout fmtint computes. */
  function IntLayout(u: nat, sign: string, base: nat, caps: bool, width: int, precision: int, f: Flags): Layout
    requires 2 <= base <= 16
  {
    var digits := Digits(u, base, caps);
    var pos := |digits|;
    var seps := if f.quote then NumSep(pos) else 0;
    var p := Precision(u, base, pos, precision, f);
    var prefix := Prefix(u, base, caps, f);
    var zpad := AtLeastZero(p - pos - seps);
    var spad := AtLeastZero(width - seps - Max(p, pos) - |sign| - |prefix|);
    var fill := !f.minus && f.zero && precision == -1;
    Layout(if fill then 0 else spad, f.minus, sign, prefix, if fill then zpad + spad else zpad,
           if f.quote then Grouped(digits) else digits)
  }

  function IntText(u: nat, sign: string, base: nat, caps: bool, width: int, precision: int, f: Flags): string
    requires 2 <= base <= 16
  {
    TextOf(IntLayout(u, sign, base, caps, width, precision, f))
  }

  /** The zeros and digits of a printed integer read back to it, separators or not. */
  lemma IntReadsBack(u: nat, sign: string, base: nat, caps: bool, width: int, precision: int, f: Flags)
    requires 2 <= base <= 16
    ensures var l := IntLayout(u, sign, base, caps, width, precision, f); Read(Repeat('0', l.zeros) + l.digits, base, 0) == u
  {
    hide Digits, Grouped, Read, Repeat;
    var l := IntLayout(u, sign, base, caps, width, precision, f);
    ReadConcat(Repeat('0', l.zeros), l.digits, base, 0);
    ReadZeros(l.zeros, base);
    ReadDigits(u, base, caps);
    ReadGrouped(Digits(u, base, caps), base, 0);
  }

  lemma TextLength(l: Layout)
    ensures |TextOf(l)| == l.spaces + |l.sign| + |l.prefix| + l.zeros + |l.digits|
  {
    hide Repeat;
  }

  /** How far a printed integer fills its field, in numbers. */
  function Printed(width: int, signs: nat, pos: nat, seps: nat, p: int): nat {
    AtLeastZero(width - seps - Max(p, pos) - signs) + signs + AtLeastZero(p - pos - seps) + pos + seps
  }

  lemma PrintedFills(width: int, signs: nat, pos: nat, seps: nat, p: int)
    ensures var natural := signs + Max(p, pos + seps);
            && Printed(width, signs, pos, seps, p) >= natural
            && (Printed(width, signs, pos, seps, p) >= width <==> seps == 0 || p <= pos || width <= natural)
  {}

  /**
   * The length of a printed integer.  The field is filled to its width, except that zeros asked for by a
   * precision are counted once too often against it when there are separators as well.
   */
  lemma IntLength(u: nat, sign: string, base: nat, caps: bool, width: int, precision: int, f: Flags)
    requires 2 <= base <= 16
    ensures var pos := |Digits(u, base, caps)|;
            var seps := if f.quote then NumSep(pos) else 0;
            var p := Precision(u, base, pos, precision, f);
            var natural := |sign| + |Prefix(u, base, caps, f)| + Max(p, pos + seps);
            && |IntText(u, sign, base, caps, width, precision, f)| >= natural
            && (|IntText(u, sign, base, caps, width, precision, f)| >= width <==> seps == 0 || p <= pos || width <= natural)
  {
    hide Digits, Grouped, TextOf, Precision, Prefix, NumSep;
    var digits := Digits(u, base, caps);
    var seps := if f.quote then NumSep(|digits|) else 0;
    GroupedLength(digits);
    TextLength(IntLayout(u, sign, base, caps, width, precision, f));
    PrintedFills(width, |sign| + |Prefix(u, base, caps, f)|, |digits|, seps, Precision(u, base, |digits|, precision, f));
  }

  /** "%'10.8d" prints 1234 in nine characters. */
  lemma ShortField()
    ensures |IntText(1234, "", 10, false, 10, 8, NOFLAGS.(quote := true))| == 9
  {
    assert Digits(12, 10, false) == "12";
    assert Digits(123, 10, false) == "123";
    assert Digits(1234, 10, false) == "1234";
    GroupedLength("1234");
  }

  /** The text of a string: cut to the precision, filled to the width. */
  function StrText(value: Option<string>, width: int, precision: int, left: bool): string
    requires precision >= -1
  {
    var s := if value.None? then "(null)" else value.value;
    var body := if precision == -1 || precision >= |s| then s else s[..precision];
    var pad := Repeat(' ', AtLeastZero(width - |body|));
    if left then body + pad else pad + body
  }

  // ----- arguments -----

  function Unsigned(v: int, bits: nat): nat {
    v % Pow2(bits)
  }

  function Signed(v: int, bits: nat): int
    requires bits > 0
  {
    var u := Unsigned(v, bits);
    if u >= Pow2(bits - 1) then u - Pow2(bits) else u
  }

  function NextNum(args: seq<Arg>): int {
    if args != [] && args[0].Num? then args[0].v else 0
  }

  function Others(args: seq<Arg>): seq<Arg> {
    if args == [] then [] else args[1..]
  }

  function NextStr(args: seq<Arg>): Option<string> {
    if args != [] && args[0].Str? then args[0].s else None
  }

  function NextReal(args: seq<Arg>): Arg {
    if args != [] && args[0].Real? then args[0] else Real("", false)
  }

  /** The argument of %d and %i; size_t stands in for its signed type, and long long is no longer than long. */
  function SignedArg(v: int, m: Modifier): int {
    match m
    case CharMod => Signed(v, 8)
    case ShortMod => Signed(v, 16)
    case SizeMod => Unsigned(v, 32)
    case IntMax => Signed(v, 64)
    case _ => Signed(v, 32)
  }

  /** The argument of the unsigned conversions, already cut to the 32 bits of UINTMAX_T. */
  function UnsignedArg(v: int, m: Modifier): nat {
    match m
    case CharMod => Unsigned(v, 8)
    case ShortMod => Unsigned(v, 16)
    case _ => Unsigned(v, 32)
  }

  function Magnitude(v: int): nat {
    Unsigned(if v >= 0 then v else -v, 32)
  }

  // ----- directives -----

  datatype Directive = Directive(flags: Flags, width: int, precision: int, modifier: Modifier)

  /** What is printed, stored through %n, and whether a number was too big. */
  datatype Output = Output(out: string, stores: seq<nat>, overflow: bool)

  function Append(o: Output, s: string): Output {
    o.(out := o.out + s)
  }

  function DecimalText(d: Directive, v: int): string {
    IntText(Magnitude(v), SignOf(v < 0, d.flags), 10, false, d.width, d.precision, d.flags)
  }

  function UnsignedText(d: Directive, u: nat, base: nat, caps: bool): string
    requires 2 <= base <= 16
  {
    IntText(u, "", base, caps, d.width, d.precision, d.flags)
  }

  /** The effect of a conversion character. */
  function Convert(d: Directive, c: char, args: seq<Arg>, o: Output): (Output, seq<Arg>)
    requires d.precision >= -1
  {
    match c
    case 'd' | 'i' => (Append(o, DecimalText(d, SignedArg(NextNum(args), d.modifier))), Others(args))
    case 'X' => (Append(o, UnsignedText(d, UnsignedArg(NextNum(args), d.modifier), 16, true)), Others(args))
    case 'x' => (Append(o, UnsignedText(d, UnsignedArg(NextNum(args), d.modifier), 16, false)), Others(args))
    case 'o' => (Append(o, UnsignedText(d, UnsignedArg(NextNum(args), d.modifier), 8, false)), Others(args))
    case 'u' => (Append(o, UnsignedText(d, UnsignedArg(NextNum(args), d.modifier), 10, false)), Others(args))
    case 'A' | 'E' | 'G' | 'F' | 'a' | 'e' | 'g' | 'f' =>
      var r := NextReal(args);
      (Append(o, r.text).(overflow := r.tooBig), Others(args))
    case 'c' => (Append(o, [Unsigned(NextNum(args), 8) as char]), Others(args))
    case 's' => (Append(o, StrText(NextStr(args), d.width, d.precision, d.flags.minus)), Others(args))
    case 'p' =>
      var v := Unsigned(NextNum(args), 32);
      (Append(o, if v == 0 then StrText(Some("(nil)"), d.width, -1, d.flags.minus)
                 else UnsignedText(d.(flags := d.flags.(num := true)), v, 16, false)), Others(args))
    case 'n' => (o.(stores := o.stores + [|o.out|]), Others(args))
    case '%' => (Append(o, "%"), args)
    case _ => (o, args)
  }

  function SetFlag(f: Flags, c: char): Flags {
    match c
    case '-' => f.(minus := true)
    case '+' => f.(plus := true)
    case ' ' => f.(space := true)
    case '#' => f.(num := true)
    case '0' => f.(zero := true)
    case '\'' => f.(quote := true)
    case _ => f
  }

  predicate IsFlag(c: char) {
    c == '-' || c == '+' || c == ' ' || c == '#' || c == '0' || c == '\''
  }

  predicate IsDigit(c: char) {
    '0' <= c <= '9'
  }

  function FlagRun(s: string): (n: nat)
    ensures n <= |s|
  {
    if s != "" && IsFlag(s[0]) then 1 + FlagRun(s[1..]) else 0
  }

  function FlagsOf(s: string, f: Flags): Flags {
    if s == "" then f else FlagsOf(s[1..], SetFlag(f, s[0]))
  }

  function DigitRun(s: string): (n: nat)
    ensures n <= |s|
  {
    if s != "" && IsDigit(s[0]) then 1 + DigitRun(s[1..]) else 0
  }

  /** A length modifier at the start of `s`, and its length. */
  function ModifierOf(s: string): (r: (Modifier, nat))
    ensures r.1 <= |s|
  {
    if s == "" then (NoMod, 0)
    else
      match s[0]
      case 'h' => if |s| > 1 && s[1] == 'h' then (CharMod, 2) else (ShortMod, 1)
      case 'l' => if |s| > 1 && s[1] == 'l' then (LLongMod, 2) else (LongMod, 1)
      case 'L' => (LDouble, 1)
      case 'j' => (IntMax, 1)
      case 't' => (PtrDiff, 1)
      case 'z' => (SizeMod, 1)
      case _ => (NoMod, 0)
  }

  /** A directive as it is read: the format may end inside it, or a number in it may be too big. */
  datatype Parsed = Ended | TooBig | Complete(d: Directive, c: char, rest: string, args: seq<Arg>)

  function ParseModifier(f: Flags, width: int, precision: int, s: string, args: seq<Arg>): (r: Parsed)
    ensures r.Complete? ==> |r.rest| < |s| && r.d.precision == precision
  {
    var (m, n) := ModifierOf(s);
    if n == |s| then Ended else Complete(Directive(f, width, precision, m), s[n], s[n + 1..], args)
  }

  /** A number in the format, read on after `from`, or a `*` for one among the arguments; the `*` may also follow a number. */
  function ParsePrecision(f: Flags, width: int, from: nat, s: string, args: seq<Arg>): (r: Parsed)
    ensures r.Complete? ==> |r.rest| < |s| && r.d.precision >= -1
  {
    var n := DigitRun(s);
    var v := Read(s[..n], 10, from);
    if v > INT_MAX then TooBig
    else if n < |s| && s[n] == '*' then
      var p := Signed(NextNum(args), 32);
      ParseModifier(f, width, if p < 0 then -1 else p, s[n + 1..], Others(args))
    else ParseModifier(f, width, v, s[n..], args)
  }

  function ParseDot(f: Flags, width: int, s: string, args: seq<Arg>): (r: Parsed)
    ensures r.Complete? ==> |r.rest| < |s| && r.d.precision >= -1
  {
    if s != "" && s[0] == '.' then ParsePrecision(f, width, 0, s[1..], args) else ParseModifier(f, width, -1, s, args)
  }

  function ParseWidth(f: Flags, from: nat, s: string, args: seq<Arg>): (r: Parsed)
    ensures r.Complete? ==> |r.rest| < |s| && r.d.precision >= -1
  {
    var n := DigitRun(s);
    var v := Read(s[..n], 10, from);
    if v > INT_MAX then TooBig
    else if n < |s| && s[n] == '*' then
      var w := Signed(NextNum(args), 32);
      ParseDot(if w < 0 then f.(minus := true) else f, if w < 0 then -w else w, s[n + 1..], Others(args))
    else ParseDot(f, v, s[n..], args)
  }

  /** A directive, after its `%`: flags, width, precision, length modifier and conversion, in this order. */
  function Parse(s: string, args: seq<Arg>): (r: Parsed)
    ensures r.Complete? ==> |r.rest| < |s| && r.d.precision >= -1
  {
    var n := FlagRun(s);
    ParseWidth(FlagsOf(s[..n], NOFLAGS), 0, s[n..], args)
  }

  /** What a format prints. */
  function Render(s: string, args: seq<Arg>, o: Output): Output
    decreases |s|, 0
  {
    if s == "" then o
    else if s[0] != '%' then Render(s[1..], args, Append(o, [s[0]]))
    else Carry(Parse(s[1..], args), |s| - 1, o)
  }

  /** The directive that was read is carried out, and the rest of the format follows. */
  function Carry(p: Parsed, bound: nat, o: Output): Output
    requires p.Complete? ==> |p.rest| <= bound && p.d.precision >= -1
    decreases bound, 1
  {
    match p
    case Ended => o
    case TooBig => o.(overflow := true)
    case Complete(d, c, rest, args) =>
      var (o', others) := Convert(d, c, args, o);
      if o'.overflow then o' else Render(rest, others, o')
  }

  /** A signed number of 32 bits reads back, with its sign. */
  lemma DecimalReadsBack(d: Directive, v: int)
    requires -0x8000_0000 <= v <= 0x7FFF_FFFF
    ensures var l := IntLayout(Magnitude(v), SignOf(v < 0, d.flags), 10, false, d.width, d.precision, d.flags);
            && DecimalText(d, v) == TextOf(l) && (l.sign == "-" <==> v < 0)
            && Read(Repeat('0', l.zeros) + l.digits, 10, 0) == Abs(v)
  {
    hide Read, Digits, Grouped, TextOf, Pow2;
    IntReadsBack(Magnitude(v), SignOf(v < 0, d.flags), 10, false, d.width, d.precision, d.flags);
    Pow2Of32();
  }

  function Abs(v: int): nat {
    if v < 0 then -v else v
  }

  lemma Pow2Of32()
    ensures Pow2(32) == 0x1_0000_0000
  {
    Pow2Of16();
    Pow2Add(16, 16);
  }

  // ----- the states of the reader -----

  datatype State = Default | InFlags | InWidth | InDot | InPrecision | InMod | InConv

  /** The variables of the reader; `rest` is the format from the current character on. */
  datatype Reader = Reader(state: State, rest: string, args: seq<Arg>, flags: Flags, width: int, precision: int,
                           modifier: Modifier)

  predicate Proper(m: Reader) {
    && m.precision >= -1 && (m.state.InWidth? ==> m.width >= 0)
  }

  /** What is printed in all, from a state on. */
  function Meaning(m: Reader, o: Output): Output
    requires Proper(m)
  {
    var s := m.rest;
    match m.state
    case Default => Render(s, m.args, o)
    case InFlags =>
      var n := FlagRun(s);
      Carry(ParseWidth(FlagsOf(s[..n], m.flags), 0, s[n..], m.args), |s|, o)
    case InWidth => Carry(ParseWidth(m.flags, m.width, s, m.args), |s|, o)
    case InDot => Carry(ParseDot(m.flags, m.width, s, m.args), |s|, o)
    case InPrecision => Carry(ParsePrecision(m.flags, m.width, AtLeastZero(m.precision), s, m.args), |s|, o)
    case InMod => Carry(ParseModifier(m.flags, m.width, m.precision, s, m.args), |s|, o)
    case InConv =>
      if s == "" then o
      else Carry(Complete(Directive(m.flags, m.width, m.precision, m.modifier), s[0], s[1..], m.args), |s|, o)
  }

  /** The bound only serves termination. */
  lemma CarryBound(p: Parsed, b: nat, b': nat, o: Output)
    requires p.Complete? ==> |p.rest| <= b && |p.rest| <= b' && p.d.precision >= -1
    ensures Carry(p, b, o) == Carry(p, b', o)
  {
    hide Render, Convert;
  }

  /** A format that has ended prints no more. */
  lemma EndMeaning(m: Reader, o: Output)
    requires Proper(m) && m.rest == ""
    requires (m.state.InWidth? ==> m.width <= INT_MAX) && (m.state.InPrecision? ==> m.precision <= INT_MAX)
    ensures Meaning(m, o) == o
  {}

  lemma DefaultStep(m: Reader, o: Output)
    requires Proper(m) && m.state.Default? && m.rest != ""
    ensures m.rest[0] != '%' ==> Meaning(m, o) == Meaning(m.(rest := m.rest[1..]), Append(o, [m.rest[0]]))
    ensures m.rest[0] == '%' && m.flags == NOFLAGS ==> Meaning(m, o) == Meaning(m.(rest := m.rest[1..], state := InFlags), o)
  {
    hide Convert, ParseWidth;
  }

  lemma FlagsStep(m: Reader, o: Output)
    requires Proper(m) && m.state.InFlags? && m.rest != "" && m.width == 0
    ensures var c := m.rest[0];
            IsFlag(c) ==> Meaning(m, o) == Meaning(m.(rest := m.rest[1..], flags := SetFlag(m.flags, c)), o)
    ensures !IsFlag(m.rest[0]) ==> Meaning(m, o) == Meaning(m.(state := InWidth), o)
  {
    hide Convert, ParseWidth, Carry, SetFlag, IsFlag;
    var s, n := m.rest, FlagRun(m.rest);
    if IsFlag(s[0]) {
      assert s[..n][1..] == s[1..][..n - 1] && s[n..] == s[1..][n - 1..];
      var p := ParseWidth(FlagsOf(s[..n], m.flags), 0, s[n..], m.args);
      CarryBound(p, |s|, |s| - 1, o);
    } else {
      assert s[..0] == "" && s[0..] == s;
    }
  }

  lemma {:induction false} ReadGrows(s: string, v: nat)
    ensures Read(s, 10, v) >= v
  {
    if s != "" {
      var w := if s[0] == ',' then v else v * 10 + DigitValue(s[0]);
      assert w >= v;
      ReadGrows(s[1..], w);
    }
  }

  /** One more digit of a number. */
  lemma DigitStep(s: string, v: nat)
    requires s != "" && IsDigit(s[0])
    ensures var n, w := DigitRun(s), v * 10 + (s[0] as int - '0' as int);
            && n > 0 && Read(s[..n], 10, v) == Read(s[1..][..DigitRun(s[1..])], 10, w) >= w
            && s[n..] == s[1..][DigitRun(s[1..])..] && n == 1 + DigitRun(s[1..])
  {
    var n := DigitRun(s);
    assert s[..n][1..] == s[1..][..n - 1];
    ReadStep(s[..n], 10, v);
    ReadGrows(s[..n][1..], v * 10 + (s[0] as int - '0' as int));
  }

  lemma NoDigit(s: string, v: nat)
    requires s == "" || !IsDigit(s[0])
    ensures DigitRun(s) == 0 && Read(s[..0], 10, v) == v && s[0..] == s
  {}

  lemma WidthStep(m: Reader, o: Output)
    requires Proper(m) && m.state.InWidth? && m.rest != "" && m.width <= INT_MAX
    ensures var c, w := m.rest[0], 10 * m.width + (m.rest[0] as int - '0' as int);
            IsDigit(c) ==> Meaning(m, o) == if w > INT_MAX then o.(overflow := true) else Meaning(m.(rest := m.rest[1..], width := w), o)
    ensures var c, w := m.rest[0], Signed(NextNum(m.args), 32);
            c == '*' ==> Meaning(m, o) == Meaning(m.(state := InDot, rest := m.rest[1..], args := Others(m.args),
                                                   flags := if w < 0 then m.flags.(minus := true) else m.flags,
                                                   width := if w < 0 then -w else w), o)
    ensures !IsDigit(m.rest[0]) && m.rest[0] != '*' ==> Meaning(m, o) == Meaning(m.(state := InDot), o)
  {
    hide Convert, Render, Read, ParseDot, Signed, DigitRun;
    if IsDigit(m.rest[0]) {
      DigitStep(m.rest, m.width);
    } else {
      NoDigit(m.rest, m.width);
    }
  }

  lemma DotStep(m: Reader, o: Output)
    requires Proper(m) && m.state.InDot? && m.rest != "" && m.precision == -1
    ensures m.rest[0] == '.' ==> Meaning(m, o) == Meaning(m.(state := InPrecision, rest := m.rest[1..]), o)
    ensures m.rest[0] != '.' ==> Meaning(m, o) == Meaning(m.(state := InMod), o)
  {
    hide Convert, Render, ParsePrecision, ParseModifier;
  }

  lemma PrecisionStep(m: Reader, o: Output)
    requires Proper(m) && m.state.InPrecision? && m.rest != "" && m.precision <= INT_MAX
    ensures var c, p := m.rest[0], 10 * AtLeastZero(m.precision) + (m.rest[0] as int - '0' as int);
            IsDigit(c) ==> Meaning(m, o) == if p > INT_MAX then o.(overflow := true) else Meaning(m.(rest := m.rest[1..], precision := p), o)
    ensures var c, p := m.rest[0], Signed(NextNum(m.args), 32);
            c == '*' ==> Meaning(m, o) == Meaning(m.(state := InMod, rest := m.rest[1..], args := Others(m.args),
                                                   precision := if p < 0 then -1 else p), o)
    ensures !IsDigit(m.rest[0]) && m.rest[0] != '*' ==> Meaning(m, o) == Meaning(m.(state := InMod, precision := AtLeastZero(m.precision)), o)
  {
    hide Convert, Render, Read, ParseModifier, Signed, DigitRun;
    if IsDigit(m.rest[0]) {
      DigitStep(m.rest, AtLeastZero(m.precision));
    } else {
      NoDigit(m.rest, AtLeastZero(m.precision));
    }
  }

  lemma ModStep(m: Reader, o: Output)
    requires Proper(m) && m.state.InMod?
    ensures var (k, n) := ModifierOf(m.rest); Meaning(m, o) == Meaning(m.(state := InConv, modifier := k, rest := m.rest[n..]), o)
  {
    hide Convert, Render, ModifierOf;
  }

  lemma ConvStep(m: Reader, o: Output)
    requires Proper(m) && m.state.InConv? && m.rest != ""
    ensures var (o', args) := Convert(Directive(m.flags, m.width, m.precision, m.modifier), m.rest[0], m.args, o);
            Meaning(m, o) == if o'.overflow then o' else Meaning(Reader(Default, m.rest[1..], args, NOFLAGS, 0, -1, NoMod), o')
  {
    hide Convert, Render;
  }
}
