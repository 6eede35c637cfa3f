/**
 * What each conversion of the formatter prints, in terms of its argument, and how directives are written:
 * the laws the texts and the reader of FormatModel satisfy.
 */
module FormatLaws {
  import opened Bits
  import opened FormatModel

  // ----- arguments -----

  /** `v` is the value of `bits` bits, signed or not, that agrees with `arg` in its low bits. */
  predicate IsCast(arg: int, v: int, modulus: nat, signed: bool)
    requires modulus > 0
  {
    && (arg - v) % modulus == 0
    && (if signed then -(modulus as int) <= 2 * v < modulus else 0 <= v < modulus)
  }

  lemma Powers()
    ensures Pow2(7) == 0x80 && Pow2(8) == 0x100 && Pow2(15) == 0x8000 && Pow2(16) == 0x1_0000
    ensures Pow2(31) == 0x8000_0000 && Pow2(32) == 0x1_0000_0000
    ensures Pow2(63) == 0x8000_0000_0000_0000 && Pow2(64) == 0x1_0000_0000_0000_0000
  {
    assert Pow2(7) == 0x80 && Pow2(8) == 0x100;
    Pow2Add(8, 7);
    Pow2Add(8, 8);
    Pow2Add(16, 15);
    Pow2Add(16, 16);
    Pow2Add(32, 31);
    Pow2Add(32, 32);
  }

  lemma CastIs(arg: int, bits: nat, modulus: nat)
    requires bits > 0 && Pow2(bits) == modulus == 2 * Pow2(bits - 1)
    ensures 0 <= Unsigned(arg, bits) && IsCast(arg, Unsigned(arg, bits), modulus, false) && IsCast(arg, Signed(arg, bits), modulus, true)
  {
    hide Pow2;
    var q, r := arg / modulus, arg % modulus;
    DivModUnique(arg - r, modulus, q, 0);
    DivModUnique(arg - (r - modulus), modulus, q + 1, 0);
  }

  /** What %d takes from its argument: 8, 16, 32 or, for the j modifier, 64 bits; z takes 32 without a sign. */
  lemma SignedArgIs(arg: int, m: Modifier)
    ensures m.CharMod? ==> IsCast(arg, SignedArg(arg, m), 0x100, true)
    ensures m.ShortMod? ==> IsCast(arg, SignedArg(arg, m), 0x1_0000, true)
    ensures m.SizeMod? ==> IsCast(arg, SignedArg(arg, m), 0x1_0000_0000, false)
    ensures m.IntMax? ==> IsCast(arg, SignedArg(arg, m), 0x1_0000_0000_0000_0000, true)
    ensures !m.CharMod? && !m.ShortMod? && !m.SizeMod? && !m.IntMax? ==> IsCast(arg, SignedArg(arg, m), 0x1_0000_0000, true)
  {
    hide Pow2, Signed, Unsigned, IsCast;
    Powers();
    CastIs(arg, 8, 0x100);
    CastIs(arg, 16, 0x1_0000);
    CastIs(arg, 32, 0x1_0000_0000);
    CastIs(arg, 64, 0x1_0000_0000_0000_0000);
  }

  /** What the unsigned conversions take: 8, 16 or 32 bits. */
  lemma UnsignedArgIs(arg: int, m: Modifier)
    ensures m.CharMod? ==> IsCast(arg, UnsignedArg(arg, m), 0x100, false)
    ensures m.ShortMod? ==> IsCast(arg, UnsignedArg(arg, m), 0x1_0000, false)
    ensures !m.CharMod? && !m.ShortMod? ==> IsCast(arg, UnsignedArg(arg, m), 0x1_0000_0000, false)
  {
    hide Pow2, Unsigned, IsCast;
    Powers();
    CastIs(arg, 8, 0x100);
    CastIs(arg, 16, 0x1_0000);
    CastIs(arg, 32, 0x1_0000_0000);
  }

  // ----- digits -----

  /** A character of a number in a base; above nine the letters are small, or capitals. */
  predicate DigitOf(c: char, base: nat, caps: bool) {
    '0' <= c <= '9' || (base > 10 && if caps then 'A' <= c <= 'F' else 'a' <= c <= 'f')
  }

  lemma {:induction false} DigitsAre(u: nat, base: nat, caps: bool)
    requires 2 <= base <= 16
    ensures forall i | 0 <= i < |Digits(u, base, caps)| :: DigitOf(Digits(u, base, caps)[i], base, caps)
    ensures u > 0 ==> Digits(u, base, caps)[0] != '0'
    ensures u == 0 ==> Digits(u, base, caps) == "0"
  {
    if u >= base {
      Smaller(u, base);
      DigitsAre(u / base, base, caps);
      DigitIs(u % base, base, caps);
    } else {
      DigitIs(u, base, caps);
    }
  }

  lemma DigitIs(d: nat, base: nat, caps: bool)
    requires d < base <= 16
    ensures DigitOf(Digit(d, caps), base, caps) && (Digit(d, caps) == '0' <==> d == 0)
  {}

  /** Numbers are read as people read them. */
  lemma ReadDecimal()
    ensures Read("4095", 10, 0) == 4095
  {
    ReadStep("4095", 10, 0);
    ReadStep("095", 10, 4);
    ReadStep("95", 10, 40);
    ReadStep("5", 10, 409);
    assert "4095"[1..] == "095" && "095"[1..] == "95" && "95"[1..] == "5" && "5"[1..] == "";
  }

  lemma ReadHexadecimal()
    ensures Read("fF", 16, 0) == 255
  {
    ReadStep("fF", 16, 0);
    ReadStep("F", 16, 15);
    assert "fF"[1..] == "F" && "F"[1..] == "";
  }

  lemma GroupedCons(c: char, t: string)
    ensures Grouped([c] + t) == [c] + (Comma(|t|) + Grouped(t))
  {
    assert ([c] + t)[1..] == t;
  }

  lemma JoinText(a: string, b: string, c: string, d: string)
    ensures a + (b + (c + d)) == (a + (b + c)) + d
  {}

  /** Separators stand before every third digit from the right. */
  lemma {:induction false} GroupsOfThree(a: string, b: string)
    requires a != "" && |b| == 3
    ensures Grouped(a + b) == Grouped(a) + ("," + b)
  {
    hide Grouped;
    var c, rest := a[0], a[1..];
    assert a == [c] + rest && a + b == [c] + (rest + b);
    GroupedCons(c, rest);
    GroupedCons(c, rest + b);
    if rest == "" {
      Ungrouped(b);
      Ungrouped(a);
      assert rest + b == b;
    } else {
      GroupsOfThree(rest, b);
      JoinText([c], Comma(|rest|), Grouped(rest), "," + b);
    }
  }

  // ----- integers -----

  /**
   * A printed integer: spaces, sign, prefix, zeros, digits and spaces.  The spaces are on one side only, the
   * digits are those of the base, with separators if asked for, and together with the zeros read back to `u`.
   */
  ghost predicate PrintsNumber(text: string, l: Layout, u: nat, sign: string, base: nat, caps: bool, f: Flags) {
    && text == (if f.minus then "" else Repeat(' ', l.spaces)) + sign + l.prefix + Repeat('0', l.zeros) + l.digits +
               (if f.minus then Repeat(' ', l.spaces) else "")
    && l.prefix == (if f.num && u != 0 && base == 16 then (if caps then "0X" else "0x") else "")
    && Read(Repeat('0', l.zeros) + l.digits, base, 0) == u
    && (forall i | 0 <= i < |l.digits| :: DigitOf(l.digits[i], base, caps) || (f.quote && l.digits[i] == ','))
  }

  lemma {:induction false} GroupedAre(d: string, base: nat, caps: bool)
    requires forall i | 0 <= i < |d| :: DigitOf(d[i], base, caps)
    ensures forall i | 0 <= i < |Grouped(d)| :: DigitOf(Grouped(d)[i], base, caps) || Grouped(d)[i] == ','
  {
    if d != "" {
      GroupedAre(d[1..], base, caps);
    }
  }

  lemma IntPrints(u: nat, sign: string, base: nat, caps: bool, width: int, precision: int, f: Flags)
    requires 2 <= base <= 16
    ensures PrintsNumber(IntText(u, sign, base, caps, width, precision, f),
                         IntLayout(u, sign, base, caps, width, precision, f), u, sign, base, caps, f)
  {
    hide Digits, Grouped, Read, Repeat, DigitOf;
    IntReadsBack(u, sign, base, caps, width, precision, f);
    DigitsAre(u, base, caps);
    GroupedAre(Digits(u, base, caps), base, caps);
  }

  /**
   * How a printed integer fills its field when no separators are printed: as many digits as the precision asks
   * for, one zero in front in base eight with #, and then spaces, or zeros with the 0 flag and no precision.
   */
  lemma IntField(u: nat, sign: string, base: nat, caps: bool, width: int, precision: int, f: Flags)
    requires 2 <= base <= 16 && precision >= -1 && (f.quote ==> |Digits(u, base, caps)| <= 3)
    ensures var l := IntLayout(u, sign, base, caps, width, precision, f);
            var pos := |Digits(u, base, caps)|;
            var least := if f.num && u != 0 && base == 8 then Max(precision, pos + 1) else Max(precision, pos);
            var body := |sign| + |l.prefix|;
            && l.digits == Digits(u, base, caps)
            && (!f.minus && f.zero && precision == -1 ==>
                  l.spaces == 0 && body + l.zeros + pos == Max(width, body + least))
            && (f.minus || !f.zero || precision != -1 ==>
                  l.zeros + pos == least && l.spaces + body + least == Max(width, body + least))
  {
    hide Digits, Grouped, Repeat;
    var d := Digits(u, base, caps);
    if f.quote {
      Ungrouped(d);
    }
  }

  /**
   * In base eight # puts a zero in front exactly when the zeros asked for outnumber the separators: a number
   * printed with separators loses it, unless the precision asks for more.
   */
  lemma OctalZero(u: nat, width: int, precision: int, f: Flags)
    requires u > 0 && f.num && precision >= -1 && (f.minus || !f.zero || precision != -1)
    ensures var l := IntLayout(u, "", 8, false, width, precision, f);
            var pos := |Digits(u, 8, false)|;
            (Repeat('0', l.zeros) + l.digits)[0] == '0' <==> Max(precision, pos + 1) > pos + if f.quote then NumSep(pos) else 0
  {
    hide Repeat, Digits;
    var d := Digits(u, 8, false);
    DigitsAre(u, 8, false);
    var l := IntLayout(u, "", 8, false, width, precision, f);
    assert l.digits[0] == d[0];
    assert l.zeros > 0 ==> Repeat('0', l.zeros)[0] == '0' by { ZerosFirst(l.zeros); }
  }

  lemma ZerosFirst(n: nat)
    ensures n > 0 ==> Repeat('0', n)[0] == '0'
  {}

  /** The magnitude of a wide argument is printed whole exactly when it fits 32 bits; 2^32 is printed as 0. */
  lemma WideArgument(v: int)
    ensures Magnitude(v) == FormatModel.Abs(v) <==> -0x1_0000_0000 < v < 0x1_0000_0000
    ensures Magnitude(0x1_0000_0000) == 0
  {
    hide Pow2;
    Powers();
  }

  // ----- the conversions -----

  /** The conversion prints `text` and takes one argument. */
  ghost predicate Prints(d: Directive, c: char, args: seq<Arg>, o: Output, text: string)
    requires d.precision >= -1
  {
    FormatModel.Convert(d, c, args, o) == (Output(o.out + text, o.stores, o.overflow), Others(args))
  }

  /** %d and %i: a minus sign exactly for a negative argument, and the magnitude in base ten, in 32 bits. */
  lemma PrintsSigned(d: Directive, c: char, args: seq<Arg>, o: Output) returns (text: string, l: Layout)
    requires (c == 'd' || c == 'i') && d.precision >= -1
    ensures Prints(d, c, args, o, text)
    ensures var v := SignedArg(NextNum(args), d.modifier);
            var sign := if v < 0 then "-" else if d.flags.plus then "+" else if d.flags.space then " " else "";
            && PrintsNumber(text, l, FormatModel.Abs(v) % 0x1_0000_0000, sign, 10, false, d.flags)
            && (!d.modifier.IntMax? ==> FormatModel.Abs(v) % 0x1_0000_0000 == FormatModel.Abs(v))
  {
    hide PrintsNumber, IntText, IntLayout, Pow2;
    var v := SignedArg(NextNum(args), d.modifier);
    Powers();
    SignedArgIs(NextNum(args), d.modifier);
    var u, sign := Magnitude(v), SignOf(v < 0, d.flags);
    IntPrints(u, sign, 10, false, d.width, d.precision, d.flags);
    text := IntText(u, sign, 10, false, d.width, d.precision, d.flags);
    l := IntLayout(u, sign, 10, false, d.width, d.precision, d.flags);
  }

  /** %u, %o, %x and %X: no sign, and the argument in base 10, 8 or 16, with capitals for %X only. */
  lemma PrintsUnsigned(d: Directive, c: char, args: seq<Arg>, o: Output) returns (text: string, l: Layout)
    requires (c == 'u' || c == 'o' || c == 'x' || c == 'X') && d.precision >= -1
    ensures Prints(d, c, args, o, text)
    ensures var base := if c == 'u' then 10 else if c == 'o' then 8 else 16;
            PrintsNumber(text, l, UnsignedArg(NextNum(args), d.modifier), "", base, c == 'X', d.flags)
  {
    hide PrintsNumber, IntText, IntLayout, UnsignedArg;
    var base := if c == 'u' then 10 else if c == 'o' then 8 else 16;
    var u := UnsignedArg(NextNum(args), d.modifier);
    IntPrints(u, "", base, c == 'X', d.width, d.precision, d.flags);
    text := IntText(u, "", base, c == 'X', d.width, d.precision, d.flags);
    l := IntLayout(u, "", base, c == 'X', d.width, d.precision, d.flags);
  }

  /** %p: a null pointer by name, another one in small hexadecimal digits after 0x. */
  lemma PrintsPointer(d: Directive, args: seq<Arg>, o: Output) returns (text: string, l: Layout)
    requires d.precision >= -1
    ensures Prints(d, 'p', args, o, text)
    ensures var u := NextNum(args) % 0x1_0000_0000;
            if u == 0 then FillsField(text, "(nil)", d.width, d.flags.minus)
            else PrintsNumber(text, l, u, "", 16, false, d.flags.(num := true)) && l.prefix == "0x"
  {
    hide IntText, IntLayout, Pow2, FillsField;
    Powers();
    var u := Unsigned(NextNum(args), 32);
    var f := d.flags.(num := true);
    IntPrints(u, "", 16, false, d.width, d.precision, f);
    StrPrints(Some("(nil)"), d.width, -1, d.flags.minus);
    text := if u == 0 then StrText(Some("(nil)"), d.width, -1, d.flags.minus) else IntText(u, "", 16, false, d.width, d.precision, f);
    l := IntLayout(u, "", 16, false, d.width, d.precision, f);
    hide Read, DigitOf, Repeat, StrText;
  }

  /** `body` with as many spaces before it, or after it, as the width asks for. */
  ghost predicate FillsField(text: string, body: string, width: int, left: bool) {
    && |text| == Max(width, |body|)
    && (if left then text[..|body|] == body && forall i | |body| <= i < |text| :: text[i] == ' '
        else text[|text| - |body|..] == body && forall i | 0 <= i < |text| - |body| :: text[i] == ' ')
  }

  /** The text of a string: its first characters, as many as the precision allows; no string is printed as (null). */
  lemma StrPrints(value: Option<string>, width: int, precision: int, left: bool)
    requires precision >= -1
    ensures var s := if value.None? then "(null)" else value.value;
            var n := if precision == -1 || precision >= |s| then |s| else precision;
            FillsField(StrText(value, width, precision, left), s[..n], width, left)
  {
    var s := if value.None? then "(null)" else value.value;
    var n := if precision == -1 || precision >= |s| then |s| else precision;
    var body, pad := s[..n], Repeat(' ', AtLeastZero(width - n));
    assert n == |s| ==> s[..n] == s;
    var text := StrText(value, width, precision, left);
    assert text == if left then body + pad else pad + body;
    if left {
      assert text[..n] == body;
    } else {
      assert text[|text| - n..] == body;
    }
  }

  lemma PrintsString(d: Directive, args: seq<Arg>, o: Output)
    requires d.precision >= -1
    ensures Prints(d, 's', args, o, StrText(NextStr(args), d.width, d.precision, d.flags.minus))
  {
    hide StrText;
  }

  /** %c prints one character, %n nothing: it stores how many there have been; %% takes no argument, nor do others. */
  lemma PrintsOthers(d: Directive, c: char, args: seq<Arg>, o: Output)
    requires d.precision >= -1
    ensures NextNum(args) % 256 < 256
    ensures Prints(d, 'c', args, o, [(NextNum(args) % 256) as char])
    ensures FormatModel.Convert(d, 'n', args, o) == (o.(stores := o.stores + [|o.out|]), Others(args))
    ensures FormatModel.Convert(d, '%', args, o) == (o.(out := o.out + "%"), args)
    ensures c in "AEGFaegf" ==>
              FormatModel.Convert(d, c, args, o) == (Output(o.out + NextReal(args).text, o.stores, NextReal(args).tooBig), Others(args))
    ensures c !in "diXxouAEGFaegfcspn%" ==> FormatModel.Convert(d, c, args, o) == (o, args)
  {
    hide IntText, StrText, Pow2;
    Powers();
  }

  // ----- flags -----

  lemma SetFlagIs(f: Flags, c: char)
    ensures var g := SetFlag(f, c);
            && (g.minus <==> f.minus || c == '-') && (g.plus <==> f.plus || c == '+')
            && (g.space <==> f.space || c == ' ') && (g.num <==> f.num || c == '#')
            && (g.zero <==> f.zero || c == '0') && (g.quote <==> f.quote || c == '\'')
  {
    hide SetFlag;
    SetSignFlags(f, c);
    SetOtherFlags(f, c);
  }

  lemma SetSignFlags(f: Flags, c: char)
    ensures var g := SetFlag(f, c);
            (g.minus <==> f.minus || c == '-') && (g.plus <==> f.plus || c == '+') && (g.space <==> f.space || c == ' ')
  {}

  lemma SetOtherFlags(f: Flags, c: char)
    ensures var g := SetFlag(f, c);
            (g.num <==> f.num || c == '#') && (g.zero <==> f.zero || c == '0') && (g.quote <==> f.quote || c == '\'')
  {}

  lemma InTail(c: char, s: string)
    requires s != ""
    ensures c in s <==> c == s[0] || c in s[1..]
  {
    assert s == [s[0]] + s[1..];
  }

  /** Each flag character sets its own flag. */
  lemma {:induction false} FlagsMean(s: string, f: Flags)
    ensures var g := FlagsOf(s, f);
            && (g.minus <==> f.minus || '-' in s) && (g.plus <==> f.plus || '+' in s)
            && (g.space <==> f.space || ' ' in s) && (g.num <==> f.num || '#' in s)
            && (g.zero <==> f.zero || '0' in s) && (g.quote <==> f.quote || '\'' in s)
  {
    hide SetFlag;
    if s != "" {
      FlagsMean(s[1..], SetFlag(f, s[0]));
      SetFlagIs(f, s[0]);
      InTail('-', s);
      InTail('+', s);
      InTail(' ', s);
      InTail('#', s);
      InTail('0', s);
      InTail('\'', s);
    }
  }

  // ----- directives as they are written -----

  /** A width or a precision: digits, or a star for one among the arguments. */
  datatype Field = Number(digits: string) | Star

  function FieldText(f: Field): string {
    if f.Star? then "*" else f.digits
  }

  predicate GoodField(f: Field) {
    f.Number? ==> (forall i | 0 <= i < |f.digits| :: IsDigit(f.digits[i])) && Read(f.digits, 10, 0) <= 2147483647
  }

  function ModifierText(m: Modifier): string {
    match m
    case NoMod => ""
    case CharMod => "hh"
    case ShortMod => "h"
    case LongMod => "l"
    case LLongMod => "ll"
    case LDouble => "L"
    case SizeMod => "z"
    case PtrDiff => "t"
    case IntMax => "j"
  }

  /** A conversion character is none of those that come before it. */
  predicate Conversion(c: char) {
    !IsFlag(c) && !IsDigit(c) && c != '*' && c != '.' && c != 'h' && c != 'l' && c != 'L' && c != 'j' && c != 't' && c != 'z'
  }

  lemma ModifierReads(m: Modifier, c: char, rest: string)
    requires Conversion(c)
    ensures ModifierOf(ModifierText(m) + ([c] + rest)) == (m, |ModifierText(m)|)
  {
    var t, s := ModifierText(m), ModifierText(m) + ([c] + rest);
    assert s[|t|] == c;
    assert forall i | 0 <= i < |t| :: s[i] == t[i];
  }

  /** What follows a precision: a modifier and a conversion. */
  function Tail(m: Modifier, c: char, rest: string): string {
    ModifierText(m) + ([c] + rest)
  }

  lemma TailReads(f: Flags, width: int, precision: int, m: Modifier, c: char, rest: string, args: seq<Arg>)
    requires Conversion(c)
    ensures ParseModifier(f, width, precision, Tail(m, c, rest), args) == Complete(Directive(f, width, precision, m), c, rest, args)
    ensures Tail(m, c, rest) != "" && !IsFlag(Tail(m, c, rest)[0]) && !IsDigit(Tail(m, c, rest)[0])
    ensures Tail(m, c, rest)[0] != '*' && Tail(m, c, rest)[0] != '.'
  {
    ModifierReads(m, c, rest);
    var t, s := ModifierText(m), Tail(m, c, rest);
    assert s[|t|] == c && s[|t| + 1..] == rest;
    assert t != "" ==> s[0] == t[0];
    hide ModifierOf;
  }

  lemma {:induction false} DigitRunIs(d: string, t: string)
    requires (forall i | 0 <= i < |d| :: IsDigit(d[i])) && (t == "" || !IsDigit(t[0]))
    ensures DigitRun(d + t) == |d| && (d + t)[..|d|] == d && (d + t)[|d|..] == t
  {
    if d != "" {
      assert (d + t)[1..] == d[1..] + t;
      DigitRunIs(d[1..], t);
    } else {
      assert d + t == t;
    }
  }

  lemma {:induction false} FlagRunIs(d: string, t: string)
    requires (forall i | 0 <= i < |d| :: IsFlag(d[i])) && (t == "" || !IsFlag(t[0]))
    ensures FlagRun(d + t) == |d| && (d + t)[..|d|] == d && (d + t)[|d|..] == t
  {
    if d != "" {
      assert (d + t)[1..] == d[1..] + t;
      FlagRunIs(d[1..], t);
    } else {
      assert d + t == t;
    }
  }

  lemma StarFirst(t: string)
    ensures DigitRun("*" + t) == 0 && ("*" + t)[0] == '*' && ("*" + t)[1..] == t && ("*" + t)[..0] == ""
  {}

  function StarArg(args: seq<Arg>): int {
    Signed(NextNum(args), 32)
  }

  lemma PrecisionReads(f: Flags, width: int, p: Field, t: string, args: seq<Arg>)
    requires GoodField(p) && t != "" && !IsDigit(t[0]) && t[0] != '*'
    ensures var given := if p.Star? then StarArg(args) else Read(p.digits, 10, 0);
            ParsePrecision(f, width, 0, FieldText(p) + t, args) ==
            ParseModifier(f, width, if given < 0 then -1 else given, t, if p.Star? then Others(args) else args)
  {
    hide Read, Signed, DigitRun, ParseModifier;
    if p.Star? {
      StarFirst(t);
      assert Read("", 10, 0) == 0 by { ReadNone(); }
    } else {
      DigitRunIs(p.digits, t);
    }
  }

  lemma ReadNone()
    ensures Read("", 10, 0) == 0
  {}

  lemma WidthReads(f: Flags, w: Field, t: string, args: seq<Arg>)
    requires GoodField(w) && t != "" && !IsDigit(t[0]) && t[0] != '*'
    ensures var given := if w.Star? then StarArg(args) else Read(w.digits, 10, 0);
            ParseWidth(f, 0, FieldText(w) + t, args) ==
            ParseDot(if given < 0 then f.(minus := true) else f, if given < 0 then -given else given, t,
                     if w.Star? then Others(args) else args)
  {
    hide Read, Signed, DigitRun, ParseDot;
    if w.Star? {
      StarFirst(t);
      assert Read("", 10, 0) == 0 by { ReadNone(); }
    } else {
      DigitRunIs(w.digits, t);
    }
  }

  /** A number that does not fit an int makes the whole call fail. */
  lemma TooBigReads(f: Flags, width: int, digits: string, t: string, args: seq<Arg>)
    requires (forall i | 0 <= i < |digits| :: IsDigit(digits[i])) && (t == "" || !IsDigit(t[0]))
    ensures ParseWidth(f, 0, digits + t, args).TooBig? <== Read(digits, 10, 0) > 2147483647
    ensures ParsePrecision(f, width, 0, digits + t, args).TooBig? <== Read(digits, 10, 0) > 2147483647
  {
    hide Read, Signed, DigitRun, ParseDot, ParseModifier;
    DigitRunIs(digits, t);
  }

  /** A precision, if there is one, behind its dot. */
  function DotText(p: Option<Field>): string {
    if p.None? then "" else "." + FieldText(p.value)
  }

  lemma DotReads(f: Flags, width: int, p: Option<Field>, m: Modifier, c: char, rest: string, args: seq<Arg>)
    requires Conversion(c) && (p.Some? ==> GoodField(p.value))
    ensures var s := DotText(p) + Tail(m, c, rest);
            && s != "" && !IsFlag(s[0]) && !IsDigit(s[0]) && s[0] != '*'
            && ParseDot(f, width, s, args) ==
               var given := if p.None? then -1 else if p.value.Star? then StarArg(args) else Read(p.value.digits, 10, 0);
               Complete(Directive(f, width, if given < 0 then -1 else given, m), c, rest,
                        if p.Some? && p.value.Star? then Others(args) else args)
  {
    hide Read, Signed, ParseModifier, ParsePrecision, Tail, FieldText;
    var t := Tail(m, c, rest);
    var after := if p.Some? && p.value.Star? then Others(args) else args;
    var given := if p.None? then -1 else if p.value.Star? then StarArg(args) else Read(p.value.digits, 10, 0);
    TailReads(f, width, if given < 0 then -1 else given, m, c, rest, after);
    if p.None? {
      assert "" + t == t;
    } else {
      PrecisionReads(f, width, p.value, t, args);
      assert ("." + FieldText(p.value) + t)[1..] == FieldText(p.value) + t;
    }
  }

  /** A directive after its percent sign. */
  function Written(flags: string, w: Field, p: Option<Field>, m: Modifier, c: char, rest: string): string {
    flags + (FieldText(w) + (DotText(p) + Tail(m, c, rest)))
  }

  /** What follows the flags of a directive does not look like another flag. */
  lemma NoFlagNext(w: Field, u: string)
    requires GoodField(w) && (w.Number? && w.digits != "" ==> w.digits[0] != '0') && u != "" && !IsFlag(u[0])
    ensures var t := FieldText(w) + u; t != "" && !IsFlag(t[0])
  {
    hide Read;
    var t := FieldText(w) + u;
    if FieldText(w) == "" {
      assert t == u;
    } else {
      assert t[0] == FieldText(w)[0];
    }
  }

  lemma FieldsRead(f: Flags, w: Field, p: Option<Field>, m: Modifier, c: char, rest: string, args: seq<Arg>)
    requires GoodField(w) && Conversion(c) && (p.Some? ==> GoodField(p.value))
    ensures var width := if w.Star? then StarArg(args) else Read(w.digits, 10, 0);
            var args1 := if w.Star? then Others(args) else args;
            var precision := if p.None? then -1 else if p.value.Star? then StarArg(args1) else Read(p.value.digits, 10, 0);
            var args2 := if p.Some? && p.value.Star? then Others(args1) else args1;
            ParseWidth(f, 0, FieldText(w) + (DotText(p) + Tail(m, c, rest)), args) ==
            Complete(Directive(if width < 0 then f.(minus := true) else f, if width < 0 then -width else width,
                               if precision < 0 then -1 else precision, m), c, rest, args2)
  {
    hide Read, StarArg, ParseWidth, ParseDot, DotText, Tail, FieldText, GoodField, Conversion;
    var width := if w.Star? then StarArg(args) else Read(w.digits, 10, 0);
    var args1 := if w.Star? then Others(args) else args;
    DotReads(if width < 0 then f.(minus := true) else f, if width < 0 then -width else width, p, m, c, rest, args1);
    WidthReads(f, w, DotText(p) + Tail(m, c, rest), args);
  }

  /**
   * Every directive reads as it is written: flags, a width that does not begin with a zero, a precision, a length
   * modifier and a conversion character.  A star takes an argument; a negative width means the minus flag and a
   * negative precision none.
   */
  lemma DirectiveReads(flags: string, w: Field, p: Option<Field>, m: Modifier, c: char, rest: string, args: seq<Arg>)
    requires forall i | 0 <= i < |flags| :: IsFlag(flags[i])
    requires GoodField(w) && (w.Number? && w.digits != "" ==> w.digits[0] != '0')
    requires Conversion(c) && (p.Some? ==> GoodField(p.value))
    ensures var f := FlagsOf(flags, NOFLAGS);
            var width := if w.Star? then StarArg(args) else Read(w.digits, 10, 0);
            var args1 := if w.Star? then Others(args) else args;
            var precision := if p.None? then -1 else if p.value.Star? then StarArg(args1) else Read(p.value.digits, 10, 0);
            var args2 := if p.Some? && p.value.Star? then Others(args1) else args1;
            Parse(Written(flags, w, p, m, c, rest), args) ==
            Complete(Directive(if width < 0 then f.(minus := true) else f, if width < 0 then -width else width,
                               if precision < 0 then -1 else precision, m), c, rest, args2)
  {
    hide Read, StarArg, FlagRun, FlagsOf, ParseWidth, ParseDot, DotText, Tail, FieldText, GoodField, IsFlag, Conversion;
    var u := DotText(p) + Tail(m, c, rest);
    DotReads(NOFLAGS, 0, p, m, c, rest, args);
    NoFlagNext(w, u);
    FlagRunIs(flags, FieldText(w) + u);
    FieldsRead(FlagsOf(flags, NOFLAGS), w, p, m, c, rest, args);
  }

  /** A format prints its literal characters as they are, and carries out a directive where it stands. */
  lemma RenderDirective(flags: string, w: Field, p: Option<Field>, m: Modifier, c: char, rest: string, args: seq<Arg>, o: Output)
    requires Parse(Written(flags, w, p, m, c, rest), args).Complete?
    ensures var q := Parse(Written(flags, w, p, m, c, rest), args);
            var (o', others) := FormatModel.Convert(q.d, q.c, q.args, o);
            Render("%" + Written(flags, w, p, m, c, rest), args, o) == if o'.overflow then o' else Render(q.rest, others, o')
  {
    hide FormatModel.Convert, Parse, Written;
    var s := Written(flags, w, p, m, c, rest);
    assert ("%" + s)[1..] == s;
  }

  lemma RenderLiteral(c: char, rest: string, args: seq<Arg>, o: Output)
    requires c != '%'
    ensures Render([c] + rest, args, o) == Render(rest, args, Append(o, [c]))
  {
    assert ([c] + rest)[1..] == rest;
  }
}
