/** rpl_vsnprintf.c: the formatter writes into a buffer of any size, and says how much it would have written. */
module Format {
  import opened Bits
  import opened FormatModel

  /** The buffer holds what has been printed, cut to `size` less one; the rest of it is as it was. */
  ghost predicate Holds(str: array<char>, size: nat, was: string, out: string)
    reads str
  {
    && size <= str.Length == |was|
    && (forall i | 0 <= i < str.Length :: str[i] == if i < |out| && i + 1 < size then out[i] else was[i])
  }

  /** OUTCHAR. */
  method OutChar(str: array<char>, size: nat, len: nat, ch: char, ghost was: string, ghost out: string) returns (len': nat)
    requires Holds(str, size, was, out) && len == |out|
    modifies str
    ensures Holds(str, size, was, out + [ch]) && len' == len + 1
  {
    if len + 1 < size {
      str[len] := ch;
    }
    len' := len + 1;
  }

  /** The loops that print `n` spaces or zeros. */
  method OutMany(str: array<char>, size: nat, len: nat, ch: char, n: int, ghost was: string, ghost out: string)
    returns (len': nat)
    requires Holds(str, size, was, out) && len == |out|
    modifies str
    ensures Holds(str, size, was, out + Repeat(ch, AtLeastZero(n))) && len' == len + AtLeastZero(n)
  {
    hide Holds, Repeat;
    len' := len;
    var left := n;
    NoneRepeated(out, ch);
    while left > 0
      invariant left <= n
      invariant len' == len + (AtLeastZero(n) - AtLeastZero(left))
      invariant Holds(str, size, was, out + Repeat(ch, AtLeastZero(n) - AtLeastZero(left)))
    {
      ghost var k := AtLeastZero(n) - left;
      len' := OutChar(str, size, len', ch, was, out + Repeat(ch, k));
      OneRepeated(out, ch, k);
      left := left - 1;
    }
  }

  lemma NoneRepeated(out: string, ch: char)
    ensures out + Repeat(ch, 0) == out
  {}

  lemma OneRepeated(out: string, ch: char, k: nat)
    ensures out + Repeat(ch, k) + [ch] == out + Repeat(ch, k + 1)
  {}

  /** A run of characters, such as a sign or a prefix, or what the floating-point conversions print. */
  method OutString(str: array<char>, size: nat, len: nat, s: string, ghost was: string, ghost out: string) returns (len': nat)
    requires Holds(str, size, was, out) && len == |out|
    modifies str
    ensures Holds(str, size, was, out + s) && len' == len + |s|
  {
    hide Holds;
    len' := len;
    assert out + s[..0] == out;
    for i := 0 to |s|
      invariant len' == len + i && Holds(str, size, was, out + s[..i])
    {
      len' := OutChar(str, size, len', s[i], was, out + s[..i]);
      assert out + s[..i] + [s[i]] == out + s[..i + 1];
    }
    assert s[..|s|] == s;
  }

  /** fmtstr. */
  method FmtStr(str: array<char>, size: nat, len: nat, value: Option<string>, width: int, precision: int, left: bool,
                ghost was: string, ghost out: string) returns (len': nat)
    requires Holds(str, size, was, out) && len == |out| && precision >= -1
    modifies str
    ensures var text := StrText(value, width, precision, left);
            Holds(str, size, was, out + text) && len' == len + |text|
  {
    hide Holds, Repeat;
    var s := if value.None? then "(null)" else value.value;
    var noprecision := precision == -1;
    var strln: nat := 0;
    while (noprecision || strln < precision) && strln < |s|
      invariant strln <= |s| && (noprecision || strln <= precision)
      decreases |s| - strln
    {
      strln := strln + 1;
    }
    var padlen := width - strln;
    if padlen < 0 {
      padlen := 0;
    }
    if left {
      padlen := -padlen;
    }
    ghost var body := s[..strln];
    BodyIs(s, strln, precision);
    len' := OutMany(str, size, len, ' ', padlen, was, out);
    ghost var before := out + Repeat(' ', AtLeastZero(padlen));
    len' := OutString(str, size, len', s[..strln], was, before);
    len' := OutMany(str, size, len', ' ', -padlen, was, before + body);
    StrTextIs(out, body, padlen, AtLeastZero(width - strln), left);
  }

  lemma BodyIs(s: string, n: nat, precision: int)
    requires precision >= -1 && n <= |s| && (n == |s| || n == precision) && (precision == -1 || n <= precision)
    ensures s[..n] == if precision == -1 || precision >= |s| then s else s[..precision]
  {}

  lemma StrTextIs(out: string, body: string, padlen: int, pad: nat, left: bool)
    requires padlen == if left then 0 - pad else pad
    ensures out + Repeat(' ', AtLeastZero(padlen)) + body + Repeat(' ', AtLeastZero(-padlen)) ==
            out + if left then body + Repeat(' ', pad) else Repeat(' ', pad) + body
  {
    assert Repeat(' ', 0) == "";
  }

  // ----- integers -----

  /** The digits from position `pos` of the reversed buffer down. */
  function Backwards(buf: seq<char>, pos: nat): (r: string)
    requires pos <= |buf|
    ensures |r| == pos
  {
    if pos == 0 then "" else [buf[pos - 1]] + Backwards(buf, pos - 1)
  }

  lemma {:induction false} BackwardsSame(buf: seq<char>, buf': seq<char>, pos: nat)
    requires pos <= |buf| && pos <= |buf'| && forall i | 0 <= i < pos :: buf[i] == buf'[i]
    ensures Backwards(buf, pos) == Backwards(buf', pos)
  {
    if pos > 0 {
      BackwardsSame(buf, buf', pos - 1);
    }
  }

  /** A digit less, and room for one less. */
  lemma RoomForDigits(value: nat, base: nat, room: nat)
    requires 8 <= base <= 16 && value < Pow2(3 * room)
    ensures room == 0 ==> value == 0
    ensures room > 0 ==> value / base < Pow2(3 * (room - 1))
  {
    if room > 0 {
      Pow2Add(3, 3 * (room - 1));
      assert Pow2(3) == 8;
      var p, q := Pow2(3 * (room - 1)), value / base;
      assert value < 8 * p && value == base * q + value % base;
      if q >= p {
        MulLe(base, p, q);
        MulLe(p, 8, base);
        assert false;
      }
    }
  }

  /** The digits still to come in convert, which prints at least one. */
  function Still(rest: nat, first: bool, base: nat, caps: bool): string
    requires 2 <= base <= 16
  {
    if first || rest != 0 then Digits(rest, base, caps) else ""
  }

  lemma DigitsStep(u: nat, first: bool, base: nat, caps: bool, printed: string)
    requires 2 <= base <= 16 && (first || u != 0)
    ensures u / base >= 0
    ensures Still(u, first, base, caps) + printed == Still(u / base, false, base, caps) + ([Digit(u % base, caps)] + printed)
  {
    DivNat(u, base);
    if u >= base {
      Smaller(u, base);
    } else {
      DivModUnique(u, base, 0, u);
    }
  }

  /** A digit is put before those printed so far, reading backwards. */
  method PutDigit(buf: array<char>, pos: nat, c: char)
    requires pos < buf.Length
    modifies buf
    ensures Backwards(buf[..], pos + 1) == [c] + old(Backwards(buf[..], pos))
  {
    ghost var was := buf[..];
    buf[pos] := c;
    BackwardsSame(was, buf[..], pos);
  }

  /** convert: the digits, in reverse order; 43 places are more than any number needs. */
  method Convert(value: nat, buf: array<char>, base: nat, caps: bool) returns (pos: nat)
    requires buf.Length == 43 && value < Pow2(33) && 8 <= base <= 16
    modifies buf
    ensures 0 < pos <= buf.Length && Backwards(buf[..], pos) == Digits(value, base, caps)
  {
    hide Pow2, Digits, Digit, Still, Backwards;
    var rest: nat := value;
    pos := 0;
    var first := true;
    ConvertStart(value, base, caps, buf[..]);
    while first || (rest != 0 && pos < buf.Length)
      invariant pos <= 11 && (first <==> pos == 0) && rest < Pow2(3 * (11 - pos))
      invariant Still(rest, first, base, caps) + Backwards(buf[..], pos) == Digits(value, base, caps)
      decreases 11 - pos
    {
      RoomForDigits(rest, base, 11 - pos);
      DigitsStep(rest, first, base, caps, Backwards(buf[..], pos));
      PutDigit(buf, pos, Digit(rest % base, caps));
      pos := pos + 1;
      rest := rest / base;
      first := false;
    }
    RoomForDigits(rest, base, 11 - pos);
    ConvertEnd(base, caps, Backwards(buf[..], pos));
  }

  lemma ConvertStart(value: nat, base: nat, caps: bool, buf: seq<char>)
    requires 2 <= base <= 16
    ensures Still(value, true, base, caps) + Backwards(buf, 0) == Digits(value, base, caps)
  {}

  lemma ConvertEnd(base: nat, caps: bool, printed: string)
    requires 2 <= base <= 16
    ensures Still(0, false, base, caps) + printed == printed
  {}

  /** getnumsep. */
  method GetNumSep(digits: nat) returns (r: nat)
    requires digits > 0
    ensures r == NumSep(digits)
  {
    r := (digits - (if digits % 3 == 0 then 1 else 0)) / 3;
  }

  /** One round of the loop that prints the digits: the one at `pos`, and a separator if the rest asks for one. */
  method OutDigit(str: array<char>, size: nat, len: nat, buf: array<char>, pos: nat, separators: nat,
                  ghost was: string, ghost out: string, ghost printed: string) returns (len': nat, ghost printed': string)
    requires Holds(str, size, was, out + printed) && len == |out + printed| && buf != str && pos < buf.Length
    modifies str
    ensures Holds(str, size, was, out + printed') && len' == |out + printed'|
    ensures printed + Shown(buf[..], pos + 1, separators > 0) == printed' + Shown(buf[..], pos, separators > 0)
  {
    hide Holds, Shown;
    ghost var all := buf[..];
    ghost var sep := if separators > 0 then Comma(pos) else "";
    ShownStep(all, pos, separators > 0);
    JoinText(printed, [all[pos]], sep, Shown(all, pos, separators > 0));
    len' := OutChar(str, size, len, buf[pos], was, out + printed);
    assert out + printed + [all[pos]] == out + (printed + [all[pos]]);
    if separators > 0 && pos > 0 && pos % 3 == 0 {
      len' := OutChar(str, size, len', ',', was, out + (printed + [all[pos]]));
    } else {
      assert out + (printed + [all[pos]]) + "" == out + (printed + [all[pos]]);
    }
    assert out + (printed + [all[pos]]) + sep == out + ((printed + [all[pos]]) + sep);
    printed' := (printed + [all[pos]]) + sep;
  }

  /** The loop that prints the digits, and a separator where a multiple of three of them are left. */
  method OutDigits(str: array<char>, size: nat, len: nat, buf: array<char>, count: nat, separators: nat,
                   ghost quote: bool, ghost was: string, ghost out: string) returns (len': nat)
    requires Holds(str, size, was, out) && len == |out| && buf != str && 0 < count <= buf.Length
    requires separators == if quote then NumSep(count) else 0
    modifies str
    ensures var d := Backwards(buf[..], count); var text := if quote then Grouped(d) else d;
            Holds(str, size, was, out + text) && len' == len + |text|
  {
    hide Holds, Backwards, Grouped, Shown;
    ghost var all := buf[..];
    ghost var text := Shown(all, count, separators > 0);
    ghost var printed := "";
    var pos := count;
    len' := len;
    NoSeparators(all, count, quote, separators);
    assert "" + text == text && out + "" == out;
    while pos > 0
      invariant pos <= count && buf[..] == all && len' == |out + printed|
      invariant Holds(str, size, was, out + printed)
      invariant text == printed + Shown(all, pos, separators > 0)
    {
      pos := pos - 1;
      len', printed := OutDigit(str, size, len', buf, pos, separators, was, out, printed);
    }
    NothingShown(all, separators > 0);
    assert printed + "" == printed;
  }

  lemma JoinText(a: string, b: string, c: string, d: string)
    ensures a + (b + (c + d)) == ((a + b) + c) + d
  {}

  /** The text of the digits from position `pos` down. */
  function Shown(buf: seq<char>, pos: nat, grouped: bool): string
    requires pos <= |buf|
  {
    if grouped then Grouped(Backwards(buf, pos)) else Backwards(buf, pos)
  }

  lemma NothingShown(buf: seq<char>, grouped: bool)
    ensures Shown(buf, 0, grouped) == ""
  {}

  lemma ShownStep(buf: seq<char>, pos: nat, grouped: bool)
    requires pos < |buf|
    ensures Shown(buf, pos + 1, grouped) == [buf[pos]] + ((if grouped then Comma(pos) else "") + Shown(buf, pos, grouped))
  {
    var d, rest := Backwards(buf, pos + 1), Backwards(buf, pos);
    assert d[0] == buf[pos] && d[1..] == rest;
    assert "" + rest == rest;
    hide Backwards;
  }

  lemma NoSeparators(buf: seq<char>, count: nat, quote: bool, separators: nat)
    requires 0 < count <= |buf| && separators == if quote then NumSep(count) else 0
    ensures var d := Backwards(buf, count); (if quote then Grouped(d) else d) == Shown(buf, count, separators > 0)
  {
    if quote && separators == 0 {
      Ungrouped(Backwards(buf, count));
    }
  }

  /** What fmtint works out before it prints: left justification makes the number of spaces negative. */
  method LayOut(u: nat, sign: string, base: nat, caps: bool, width: int, precision: int, f: Flags, pos: nat)
    returns (separators: nat, hexprefix: string, zpadlen: int, spadlen: int)
    requires 8 <= base <= 16 && pos == |Digits(u, base, caps)|
    ensures separators == if f.quote then NumSep(pos) else 0
    ensures var l := IntLayout(u, sign, base, caps, width, precision, f);
            l.prefix == hexprefix && l.zeros == zpadlen && spadlen == if l.left then 0 - l.spaces else l.spaces
  {
    hide Grouped, Digits, Repeat, NumSep;
    var noprecision := precision == -1;
    var prec := precision;
    hexprefix := "";
    if f.num && u != 0 {
      if base == 8 {
        if prec <= pos {
          prec := pos + 1;
        }
      } else if base == 16 {
        hexprefix := if caps then "0X" else "0x";
      }
    }
    separators := 0;
    if f.quote {
      separators := GetNumSep(pos);
    }
    zpadlen := prec - pos - separators;
    spadlen := width - separators - Max(prec, pos) - |sign| - |hexprefix|;
    if zpadlen < 0 {
      zpadlen := 0;
    }
    if spadlen < 0 {
      spadlen := 0;
    }
    if f.minus {
      spadlen := -spadlen;
    } else if f.zero && noprecision {
      zpadlen := zpadlen + spadlen;
      spadlen := 0;
    }
  }

  /** fmtint: `u` and `sign` are what it makes of its argument. */
  method FmtInt(str: array<char>, size: nat, len: nat, u: nat, sign: string, base: nat, caps: bool, width: int, precision: int,
                f: Flags, ghost was: string, ghost out: string) returns (len': nat)
    requires Holds(str, size, was, out) && len == |out| && u < Pow2(33) && 8 <= base <= 16
    modifies str
    ensures var text := IntText(u, sign, base, caps, width, precision, f);
            Holds(str, size, was, out + text) && len' == len + |text|
  {
    hide Holds, Backwards, Grouped, Digits, Repeat, NumSep, Pow2, IntLayout, TextOf;
    var iconvert := new char[43];
    var pos := Convert(u, iconvert, base, caps);
    var separators, hexprefix, zpadlen, spadlen := LayOut(u, sign, base, caps, width, precision, f, pos);
    ghost var l := IntLayout(u, sign, base, caps, width, precision, f);
    LayoutParts(u, sign, base, caps, width, precision, f);
    len' := OutMany(str, size, len, ' ', spadlen, was, out);
    ghost var o1 := out + Repeat(' ', AtLeastZero(spadlen));
    len' := OutString(str, size, len', sign, was, o1);
    len' := OutString(str, size, len', hexprefix, was, o1 + sign);
    len' := OutMany(str, size, len', '0', zpadlen, was, o1 + sign + hexprefix);
    ghost var o2 := o1 + sign + hexprefix + Repeat('0', AtLeastZero(zpadlen));
    len' := OutDigits(str, size, len', iconvert, pos, separators, f.quote, was, o2);
    len' := OutMany(str, size, len', ' ', -spadlen, was, o2 + l.digits);
    LayoutText(out, l, spadlen);
  }

  lemma LayoutParts(u: nat, sign: string, base: nat, caps: bool, width: int, precision: int, f: Flags)
    requires 2 <= base <= 16
    ensures var l, d := IntLayout(u, sign, base, caps, width, precision, f), Digits(u, base, caps);
            l.sign == sign && l.digits == if f.quote then Grouped(d) else d
  {}

  lemma LayoutText(out: string, l: Layout, spadlen: int)
    requires spadlen == if l.left then 0 - l.spaces else l.spaces
    ensures out + Repeat(' ', AtLeastZero(spadlen)) + l.sign + l.prefix + Repeat('0', l.zeros) + l.digits +
            Repeat(' ', AtLeastZero(-spadlen)) == out + TextOf(l)
  {
    assert Repeat(' ', 0) == "";
  }

  // ----- a conversion -----

  lemma NumberFits(v: int)
    ensures Unsigned(v, 32) < Pow2(33) && Magnitude(v) < Pow2(33) && Unsigned(v, 8) < 256
  {
    assert Pow2(8) == 256;
    hide Pow2;
    Pow2Mono(32, 33);
  }

  lemma ArgFits(v: int, m: Modifier)
    ensures UnsignedArg(v, m) < Pow2(33)
  {
    hide Pow2;
    Pow2Mono(32, 33);
    Pow2Mono(16, 33);
    Pow2Mono(8, 33);
  }

  /** The conversions of signed integers: the sign and the magnitude are taken apart, the latter in 32 bits. */
  method PutSigned(str: array<char>, size: nat, len: nat, v: int, d: Directive, ghost was: string, ghost out: string)
    returns (len': nat)
    requires Holds(str, size, was, out) && len == |out|
    modifies str
    ensures var text := DecimalText(d, v); Holds(str, size, was, out + text) && len' == len + |text|
  {
    hide Holds, IntText, Pow2;
    NumberFits(v);
    var sign := "";
    if v < 0 {
      sign := "-";
    } else if d.flags.plus {
      sign := "+";
    } else if d.flags.space {
      sign := " ";
    }
    len' := FmtInt(str, size, len, Magnitude(v), sign, 10, false, d.width, d.precision, d.flags, was, out);
  }

  method PutUnsigned(str: array<char>, size: nat, len: nat, u: nat, base: nat, caps: bool, d: Directive,
                     ghost was: string, ghost out: string) returns (len': nat)
    requires Holds(str, size, was, out) && len == |out| && u < Pow2(33) && 8 <= base <= 16
    modifies str
    ensures var text := UnsignedText(d, u, base, caps); Holds(str, size, was, out + text) && len' == len + |text|
  {
    hide Holds, IntText, Pow2;
    len' := FmtInt(str, size, len, u, "", base, caps, d.width, d.precision, d.flags, was, out);
  }

  /** The arguments left, the numbers stored, and whether a number was too big. */
  datatype After = After(args: seq<Arg>, stores: seq<nat>, overflow: bool)

  /** The state PRINT_S_CONV: a conversion character is carried out. */
  method Conversion(str: array<char>, size: nat, len: nat, c: char, d: Directive, args: seq<Arg>, stores: seq<nat>,
                    ghost was: string, ghost out: string) returns (len': nat, after: After, ghost out': string)
    requires Holds(str, size, was, out) && len == |out| && d.precision >= -1
    modifies str
    ensures Holds(str, size, was, out') && len' == |out'|
    ensures FormatModel.Convert(d, c, args, Output(out, stores, false)) == (Output(out', after.stores, after.overflow), after.args)
  {
    hide Holds, DecimalText, UnsignedText, StrText, Pow2, Unsigned, Signed, SignedArg, UnsignedArg;
    len', after, out' := len, After(Others(args), stores, false), out;
    var v := NextNum(args);
    ArgFits(v, d.modifier);
    NumberFits(v);
    match c {
      case 'd' | 'i' =>
        len' := PutSigned(str, size, len, SignedArg(v, d.modifier), d, was, out);
        out' := out + DecimalText(d, SignedArg(v, d.modifier));
      case 'X' =>
        len' := PutUnsigned(str, size, len, UnsignedArg(v, d.modifier), 16, true, d, was, out);
        out' := out + UnsignedText(d, UnsignedArg(v, d.modifier), 16, true);
      case 'x' =>
        len' := PutUnsigned(str, size, len, UnsignedArg(v, d.modifier), 16, false, d, was, out);
        out' := out + UnsignedText(d, UnsignedArg(v, d.modifier), 16, false);
      case 'o' =>
        len' := PutUnsigned(str, size, len, UnsignedArg(v, d.modifier), 8, false, d, was, out);
        out' := out + UnsignedText(d, UnsignedArg(v, d.modifier), 8, false);
      case 'u' =>
        len' := PutUnsigned(str, size, len, UnsignedArg(v, d.modifier), 10, false, d, was, out);
        out' := out + UnsignedText(d, UnsignedArg(v, d.modifier), 10, false);
      case 'A' | 'E' | 'G' | 'F' | 'a' | 'e' | 'g' | 'f' =>
        var r := NextReal(args);
        len' := OutString(str, size, len, r.text, was, out);
        out', after := out + r.text, After(Others(args), stores, r.tooBig);
      case 'c' =>
        len' := OutChar(str, size, len, Unsigned(v, 8) as char, was, out);
        out' := out + [Unsigned(v, 8) as char];
      case 's' =>
        len' := FmtStr(str, size, len, NextStr(args), d.width, d.precision, d.flags.minus, was, out);
        out' := out + StrText(NextStr(args), d.width, d.precision, d.flags.minus);
      case 'p' =>
        if Unsigned(v, 32) == 0 {
          len' := FmtStr(str, size, len, Some("(nil)"), d.width, -1, d.flags.minus, was, out);
          out' := out + StrText(Some("(nil)"), d.width, -1, d.flags.minus);
        } else {
          var e := d.(flags := d.flags.(num := true));
          len' := PutUnsigned(str, size, len, Unsigned(v, 32), 16, false, e, was, out);
          out' := out + UnsignedText(e, Unsigned(v, 32), 16, false);
        }
      case 'n' =>
        after := After(Others(args), stores + [len], false);
      case '%' =>
        len' := OutChar(str, size, len, c, was, out);
        out', after := out + "%", After(args, stores, false);
      case _ =>
        after := After(args, stores, false);
    }
  }

  // ----- the whole format -----

  function Rank(s: State): nat {
    match s
    case InFlags => 5
    case InWidth => 4
    case InDot => 3
    case InPrecision => 2
    case InMod => 1
    case _ => 0
  }

  /** What the reader's variables may be in each state. */
  predicate Consistent(m: Reader) {
    && Proper(m)
    && (m.state.Default? ==> m.flags == NOFLAGS && m.modifier == NoMod)
    && (m.state.Default? || m.state.InFlags? ==> m.width == 0)
    && (m.state.InWidth? ==> m.width <= INT_MAX) && (m.state.InPrecision? ==> m.precision <= INT_MAX)
    && (m.state.Default? || m.state.InFlags? || m.state.InWidth? || m.state.InDot? ==> m.precision == -1)
  }

  /** The state PRINT_S_FLAGS. */
  method ReadFlag(m: Reader, ghost o: Output) returns (m': Reader)
    requires Consistent(m) && m.state.InFlags? && m.rest != ""
    ensures Consistent(m') && Meaning(m', o) == Meaning(m, o)
    ensures if m'.rest == m.rest then m'.state.InWidth? else |m'.rest| < |m.rest|
  {
    hide Meaning;
    FlagsStep(m, o);
    var ch := m.rest[0];
    if IsFlag(ch) {
      m' := m.(rest := m.rest[1..], flags := SetFlag(m.flags, ch));
    } else {
      m' := m.(state := InWidth);
    }
  }

  /** The state PRINT_S_WIDTH. */
  method ReadWidth(m: Reader, ghost o: Output) returns (m': Reader, overflow: bool)
    requires Consistent(m) && m.state.InWidth? && m.rest != ""
    ensures overflow ==> Meaning(m, o) == o.(overflow := true)
    ensures !overflow ==> Consistent(m') && Meaning(m', o) == Meaning(m, o)
    ensures !overflow ==> if m'.rest == m.rest then m'.state.InDot? else |m'.rest| < |m.rest|
  {
    hide Meaning, Signed;
    WidthStep(m, o);
    m', overflow := m, false;
    var ch := m.rest[0];
    if IsDigit(ch) {
      var d := ch as int - '0' as int;
      if m.width > (INT_MAX - d) / 10 {
        overflow := true;
      } else {
        m' := m.(rest := m.rest[1..], width := 10 * m.width + d);
      }
    } else if ch == '*' {
      var w := Signed(NextNum(m.args), 32);
      m' := m.(state := InDot, rest := m.rest[1..], args := Others(m.args),
               flags := if w < 0 then m.flags.(minus := true) else m.flags, width := if w < 0 then -w else w);
    } else {
      m' := m.(state := InDot);
    }
  }

  /** The state PRINT_S_DOT. */
  method ReadDot(m: Reader, ghost o: Output) returns (m': Reader)
    requires Consistent(m) && m.state.InDot? && m.rest != ""
    ensures Consistent(m') && Meaning(m', o) == Meaning(m, o)
    ensures if m'.rest == m.rest then m'.state.InMod? else |m'.rest| < |m.rest|
  {
    hide Meaning;
    DotStep(m, o);
    if m.rest[0] == '.' {
      m' := m.(state := InPrecision, rest := m.rest[1..]);
    } else {
      m' := m.(state := InMod);
    }
  }

  /** The state PRINT_S_PRECISION. */
  method ReadPrecision(m: Reader, ghost o: Output) returns (m': Reader, overflow: bool)
    requires Consistent(m) && m.state.InPrecision? && m.rest != ""
    ensures overflow ==> Meaning(m, o) == o.(overflow := true)
    ensures !overflow ==> Consistent(m') && Meaning(m', o) == Meaning(m, o)
    ensures !overflow ==> if m'.rest == m.rest then m'.state.InMod? else |m'.rest| < |m.rest|
  {
    hide Meaning, Signed;
    PrecisionStep(m, o);
    m', overflow := m, false;
    var precision := if m.precision == -1 then 0 else m.precision;
    var ch := m.rest[0];
    if IsDigit(ch) {
      var d := ch as int - '0' as int;
      if precision > (INT_MAX - d) / 10 {
        overflow := true;
      } else {
        m' := m.(rest := m.rest[1..], precision := 10 * precision + d);
      }
    } else if ch == '*' {
      var p := Signed(NextNum(m.args), 32);
      m' := m.(state := InMod, rest := m.rest[1..], args := Others(m.args), precision := if p < 0 then -1 else p);
    } else {
      m' := m.(state := InMod, precision := precision);
    }
  }

  /** The state PRINT_S_MOD: the length modifier takes up to two characters. */
  method ReadModifier(m: Reader, ghost o: Output) returns (m': Reader)
    requires Consistent(m) && m.state.InMod? && m.rest != ""
    ensures Consistent(m') && Meaning(m', o) == Meaning(m, o)
    ensures if m'.rest == m.rest then m'.state.InConv? else |m'.rest| < |m.rest|
  {
    hide Meaning;
    ModStep(m, o);
    var s, k, n: nat := m.rest, NoMod, 0;
    match s[0] {
      case 'h' =>
        k, n := ShortMod, 1;
        if |s| > 1 && s[1] == 'h' {
          k, n := CharMod, 2;
        }
      case 'l' =>
        k, n := LongMod, 1;
        if |s| > 1 && s[1] == 'l' {
          k, n := LLongMod, 2;
        }
      case 'L' => k, n := LDouble, 1;
      case 'j' => k, n := IntMax, 1;
      case 't' => k, n := PtrDiff, 1;
      case 'z' => k, n := SizeMod, 1;
      case _ =>
    }
    m' := m.(state := InConv, modifier := k, rest := s[n..]);
  }

  /** All that a format prints, however much of it there is room for. */
  function Meant(format: string, args: seq<Arg>): Output {
    Render(format, args, Output("", [], false))
  }

  /** The value returned: the length of what there was to print, or -1. */
  function Returned(o: Output): int {
    if o.overflow || |o.out| > INT_MAX then -1 else |o.out|
  }

  /** The loop of rpl_vsnprintf. */
  method Print(str: array<char>, size: nat, format: string, args: seq<Arg>, ghost was: string)
    returns (len: nat, stores: seq<nat>, overflow: bool, ghost out: string)
    requires Holds(str, size, was, "")
    modifies str
    ensures Holds(str, size, was, out) && len == |out|
    ensures Meant(format, args) == Output(out, stores, overflow)
  {
    hide Holds, Meaning, Render, FormatModel.Convert;
    var m := Reader(Default, format, args, NOFLAGS, 0, -1, NoMod);
    len, stores, overflow, out := 0, [], false, "";
    MeantIs(format, args);
    while m.rest != ""
      invariant Consistent(m) && !overflow && Holds(str, size, was, out) && len == |out|
      invariant Meaning(m, Output(out, stores, false)) == Meant(format, args)
      decreases |m.rest|, Rank(m.state)
    {
      ghost var o := Output(out, stores, false);
      match m.state {
        case Default =>
          len, m, out := PrintDefault(str, size, len, m, was, out, stores);
        case InFlags => m := ReadFlag(m, o);
        case InWidth => m, overflow := ReadWidth(m, o);
        case InDot => m := ReadDot(m, o);
        case InPrecision => m, overflow := ReadPrecision(m, o);
        case InMod => m := ReadModifier(m, o);
        case InConv =>
          len, m, stores, overflow, out := PrintConversion(str, size, len, m, stores, was, out);
      }
      if overflow {
        return;
      }
    }
    MeaningAtEnd(m, Output(out, stores, false));
  }

  lemma MeantIs(format: string, args: seq<Arg>)
    ensures var m := Reader(Default, format, args, NOFLAGS, 0, -1, NoMod);
            Consistent(m) && Meaning(m, Output("", [], false)) == Meant(format, args)
  {}

  lemma MeaningAtEnd(m: Reader, o: Output)
    requires Consistent(m) && m.rest == ""
    ensures Meaning(m, o) == o
  {
    EndMeaning(m, o);
  }

  /** The state PRINT_S_DEFAULT. */
  method PrintDefault(str: array<char>, size: nat, len: nat, m: Reader, ghost was: string, ghost out: string, ghost stores: seq<nat>)
    returns (len': nat, m': Reader, ghost out': string)
    requires Holds(str, size, was, out) && len == |out| && Consistent(m) && m.state.Default? && m.rest != ""
    modifies str
    ensures Holds(str, size, was, out') && len' == |out'|
    ensures Consistent(m') && |m'.rest| < |m.rest|
    ensures Meaning(m', Output(out', stores, false)) == Meaning(m, Output(out, stores, false))
  {
    hide Holds, Meaning;
    ghost var o := Output(out, stores, false);
    DefaultStep(m, o);
    var ch := m.rest[0];
    m', len', out' := m.(rest := m.rest[1..]), len, out;
    if ch == '%' {
      m' := m'.(state := InFlags);
    } else {
      len' := OutChar(str, size, len, ch, was, out);
      out' := out + [ch];
      assert Append(o, [ch]) == Output(out', stores, false);
    }
  }

  /** The state PRINT_S_CONV, after which the reader starts afresh. */
  method PrintConversion(str: array<char>, size: nat, len: nat, m: Reader, stores: seq<nat>, ghost was: string, ghost out: string)
    returns (len': nat, m': Reader, stores': seq<nat>, overflow: bool, ghost out': string)
    requires Holds(str, size, was, out) && len == |out| && Consistent(m) && m.state.InConv? && m.rest != ""
    modifies str
    ensures Holds(str, size, was, out') && len' == |out'|
    ensures overflow ==> Meaning(m, Output(out, stores, false)) == Output(out', stores', true)
    ensures !overflow ==>
              && Consistent(m') && |m'.rest| < |m.rest|
              && Meaning(m', Output(out', stores', false)) == Meaning(m, Output(out, stores, false))
  {
    hide Holds, Meaning, FormatModel.Convert;
    ConvStep(m, Output(out, stores, false));
    var d := Directive(m.flags, m.width, m.precision, m.modifier);
    var after;
    len', after, out' := Conversion(str, size, len, m.rest[0], d, m.args, stores, was, out);
    stores', overflow := after.stores, after.overflow;
    m' := Reader(Default, m.rest[1..], after.args, NOFLAGS, 0, -1, NoMod);
  }

  /**
   * rpl_vsnprintf: the buffer receives what the format prints, cut to `size` less one characters and followed by
   * a NUL; what is returned, and stored through %n, does not depend on the size.
   */
  method RplVsnprintf(str: array?<char>, size: nat, format: string, args: seq<Arg>) returns (r: int, stores: seq<nat>)
    requires str != null ==> size <= str.Length
    modifies if str == null then {} else {str}
    ensures r == Returned(Meant(format, args)) && stores == Meant(format, args).stores
    ensures r == if Meant(format, args).overflow || |Meant(format, args).out| > 2147483647 then -1 else |Meant(format, args).out|
    ensures str != null && size > 0 ==>
              var out := Meant(format, args).out;
              var n := if |out| < size then |out| else size - 1;
              str[..n] == out[..n] && str[n] == '\0' && forall i | n < i < str.Length :: str[i] == old(str[i])
    ensures str != null && size == 0 ==> str[..] == old(str[..])
  {
    hide Render;
    var limit := if str == null then 0 else size;
    var buf: array<char>;
    if str == null {
      buf := new char[0];
    } else {
      buf := str;
    }
    ghost var was := buf[..];
    var len, overflow;
    ghost var out;
    len, stores, overflow, out := Print(buf, limit, format, args, was);
    if len < limit {
      buf[len] := '\0';
    } else if limit > 0 {
      buf[limit - 1] := '\0';
    }
    r := if overflow || len > INT_MAX then -1 else len;
  }
}
