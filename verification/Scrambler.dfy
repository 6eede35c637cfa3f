/**
 * The boot ROM stream cipher: the scrambler that prepares an executable (iplscramble.py), its injection into a
 * ROM image (iplinject.py), and the descrambler that reads the image back (descrambler.c, ipl.c).
 */
module Scrambler {
  import opened Bits

  type Word = x: nat | x < 65536

  /** Exclusive or, on the lowest `n` bits. */
  function Xor(a: nat, b: nat, n: nat): (r: nat)
    ensures r < Pow2(n)
  {
    if n == 0 then 0 else 2 * Xor(a / 2, b / 2, n - 1) + (a % 2 + b % 2) % 2
  }

  function XorByte(a: Byte, b: Byte): Byte {
    EightBits();
    Xor(a, b, 8)
  }

  function XorWord(a: Word, b: Word): Word {
    Pow2Of16();
    Xor(a, b, 16)
  }

  lemma {:induction false} XorTwice(a: nat, b: nat, n: nat)
    requires a < Pow2(n)
    ensures Xor(Xor(a, b, n), b, n) == a
  {
    hide Xor;
    assert n == 0 ==> Xor(Xor(a, b, n), b, n) < Pow2(0) == 1;
    if n > 0 {
      XorTwice(a / 2, b / 2, n - 1);
      XorParts(a, b, n);
      XorParts(Xor(a, b, n), b, n);
    }
  }

  lemma XorParts(a: nat, b: nat, n: nat)
    requires n > 0
    ensures Xor(a, b, n) / 2 == Xor(a / 2, b / 2, n - 1) && Xor(a, b, n) % 2 == if a % 2 == b % 2 then 0 else 1
  {}

  lemma XorByteTwice(a: Byte, b: Byte)
    ensures XorByte(XorByte(a, b), b) == a
  {
    EightBits();
    XorTwice(a, b, 8);
  }

  /** The three shift registers and the output bit. */
  datatype Registers = Registers(t: Word, u: Word, v: Word, x: bool)

  const START := Registers(0x2953, 0xd9c2, 0x3ff1, true)

  predicate Low(r: Word) {
    r % 2 == 1
  }

  predicate Second(r: Word) {
    r / 2 % 2 == 1
  }

  function Shift(r: Word, feedback: Word): Word {
    if Low(r) then XorWord(r / 2, feedback) else r / 2
  }

  /** One turn of the generator. */
  function Clock(r: Registers): Registers {
    var t0, t1 := Low(r.t), Second(r.t);
    var u0, u1 := Low(r.u), Second(r.u);
    var v0 := Low(r.v);
    var x1 := r.x != (t1 != v0);
    var x2 := x1 != (u0 || u1);
    var x3 := x2 != (((t0 != u1) != v0) && (t0 != u0));
    Registers(Shift(r.t, 0xa740), if !t0 then Shift(r.u, 0xfb10) else r.u, if t0 == u0 then Shift(r.v, 0xb3d0) else r.v, x3)
  }

  /** The registers after `n` turns. */
  function After(n: nat): Registers {
    if n == 0 then START else Clock(After(n - 1))
  }

  function Number(b: bool): nat {
    if b then 1 else 0
  }

  /** The next `k` output bits after turn `n` as a number, the first bit on top. */
  function OutputBits(n: nat, k: nat): nat {
    if k == 0 then 0 else 2 * OutputBits(n, k - 1) + Number(After(n + k).x)
  }

  /** The accumulator, a byte, `k` turns after it was `acc` at turn `n`. */
  function Gathered(acc: Byte, n: nat, k: nat): Byte {
    if k == 0 then acc else (2 * Gathered(acc, n, k - 1) + Number(After(n + k).x)) % 256
  }

  lemma {:induction false} OutputBound(n: nat, k: nat)
    ensures OutputBits(n, k) < Pow2(k)
  {
    hide After;
    if k > 0 {
      OutputBound(n, k - 1);
    }
  }

  /** The accumulator as it would be if it were not a byte. */
  function Unbounded(acc: nat, n: nat, k: nat): nat {
    if k == 0 then acc else 2 * Unbounded(acc, n, k - 1) + Number(After(n + k).x)
  }

  function Doubled(acc: nat, k: nat): nat {
    if k == 0 then acc else 2 * Doubled(acc, k - 1)
  }

  lemma {:induction false} UnboundedIs(acc: nat, n: nat, k: nat)
    ensures Unbounded(acc, n, k) == Doubled(acc, k) + OutputBits(n, k)
  {
    hide After;
    if k > 0 {
      UnboundedIs(acc, n, k - 1);
    }
  }

  lemma {:induction false} GatheredIs(acc: Byte, n: nat, k: nat)
    ensures Gathered(acc, n, k) == Unbounded(acc, n, k) % 256
  {
    hide After;
    if k > 0 {
      GatheredIs(acc, n, k - 1);
      WrapOnce(Unbounded(acc, n, k - 1), Number(After(n + k).x));
    }
  }

  lemma WrapOnce(y: nat, b: nat)
    ensures (2 * (y % 256) + b) % 256 == (2 * y + b) % 256
  {}

  /** Byte `i` of the key stream: the output bits of turns 8i + 1 to 8i + 8. */
  function Key(i: nat): Byte {
    OutputBound(8 * i, 8);
    EightBits();
    OutputBits(8 * i, 8)
  }

  lemma EightBits()
    ensures Pow2(8) == 256
  {}

  /** What the accumulator held before has been shifted out: a key byte depends on its position alone. */
  lemma GatheredIsKey(acc: Byte, i: nat)
    ensures Gathered(acc, 8 * i, 8) == Key(i)
  {
    hide OutputBits, Gathered, Unbounded, Pow2;
    GatheredIs(acc, 8 * i, 8);
    UnboundedIs(acc, 8 * i, 8);
    assert Doubled(acc, 1) == 2 * acc;
    assert Doubled(acc, 2) == 4 * acc;
    assert Doubled(acc, 4) == 16 * acc;
    assert Doubled(acc, 6) == 64 * acc;
    assert Doubled(acc, 8) == 256 * acc;
    OutputBound(8 * i, 8);
    EightBits();
  }

  /** A run of bytes with the key stream from byte `from` on laid over it. */
  function Masked(s: seq<Byte>, from: nat): (r: seq<Byte>)
    ensures |r| == |s|
  {
    seq<Byte>(|s|, i requires 0 <= i < |s| => XorByte(s[i], Key(from + i)))
  }

  /** One turn of the registers, as both programs write it. */
  method Turn(t: Word, u: Word, v: Word, x: bool) returns (t': Word, u': Word, v': Word, x': bool)
    ensures Registers(t', u', v', x') == Clock(Registers(t, u, v, x))
  {
    hide XorWord, Low, Second;
    t', u', v', x' := t, u, v, x;
    var t0, t1 := Low(t), Second(t);
    var u0, u1 := Low(u), Second(u);
    var v0 := Low(v);
    x' := x' != (t1 != v0);
    x' := x' != (u0 || u1);
    x' := x' != (((t0 != u1) != v0) && (t0 != u0));
    if t0 == u0 {
      v' := v' / 2;
      if v0 {
        v' := XorWord(v', 0xb3d0);
      }
    }
    if !t0 {
      u' := u' / 2;
      if u0 {
        u' := XorWord(u', 0xfb10);
      }
    }
    t' := t' / 2;
    if t0 {
      t' := XorWord(t', 0xa740);
    }
  }

  /** Descrambler, and scramble over a whole array: the key stream is laid over the `size` bytes at `start`. */
  method Descrambler(data: array<Byte>, start: nat, size: nat)
    requires start + size <= data.Length
    modifies data
    ensures data[..] == old(data[..start] + Masked(data[start..start + size], 0) + data[start + size..])
  {
    hide Clock, After, Key, Gathered, XorByte;
    var acc: Byte := 0;
    var nacc: nat := 0;
    var t: Word, u: Word, v: Word, x := 0x2953, 0xd9c2, 0x3ff1, true;
    ghost var from: Byte := 0;
    var it: nat := 0;
    Begin();
    while it < size
      invariant 0 <= it <= size && nacc < 8
      invariant Registers(t, u, v, x) == After(8 * it + nacc) && acc == Gathered(from, 8 * it, nacc)
      invariant forall k | 0 <= k < it :: data[start + k] == XorByte(old(data[start + k]), Key(k))
      invariant forall k | 0 <= k < data.Length && !(start <= k < start + it) :: data[k] == old(data[k])
      decreases 8 * (size - it) - nacc
    {
      t, u, v, x := Turn(t, u, v, x);
      Next(from, it, nacc);
      nacc := nacc + 1;
      acc := (2 * acc + Number(x)) % 256;
      if nacc == 8 {
        GatheredIsKey(from, it);
        data[start + it] := XorByte(data[start + it], acc);
        it := it + 1;
        nacc := 0;
        from := acc;
        Again(from, it);
      }
    }
  }

  lemma Begin()
    ensures After(0) == START && Gathered(0, 0, 0) == 0
  {}

  lemma Again(acc: Byte, it: nat)
    ensures Gathered(acc, 8 * it, 0) == acc
  {}

  lemma Next(from: Byte, it: nat, nacc: nat)
    ensures After(8 * it + nacc + 1) == Clock(After(8 * it + nacc))
    ensures Gathered(from, 8 * it, nacc + 1) == (2 * Gathered(from, 8 * it, nacc) + Number(After(8 * it + nacc + 1).x)) % 256
  {
    hide Clock;
    assert 8 * it + (nacc + 1) == 8 * it + nacc + 1;
  }

  // ----- the tool chain -----

  const PREFIX: nat := 0x700
  const INJECTION: nat := 0x800
  const DECRYPT_START: nat := 0x100
  const IPL_ROM_FONT_SJIS: nat := 0x1AFF00
  const IPL_SIZE: nat := 0x200000

  /** main of iplscramble.py: the executable is scrambled behind the place of the first boot stage. */
  method ScrambleExecutable(exe: seq<Byte>) returns (r: seq<Byte>)
    ensures r == Masked(exe, PREFIX)
  {
    hide Key, XorByte;
    var img := new Byte[PREFIX + |exe|](i requires 0 <= i < PREFIX + |exe| => if i < PREFIX then 0 else exe[i - PREFIX]);
    assert img[PREFIX..] == exe;
    Descrambler(img, 0, img.Length);
    r := img[PREFIX..];
  }

  /** main of iplinject.py: a slice assignment, which lengthens an image that is too short. */
  function Inject(ipl: seq<Byte>, sexe: seq<Byte>): seq<Byte> {
    var from := if INJECTION <= |ipl| then INJECTION else |ipl|;
    var to := if INJECTION + |sexe| <= |ipl| then INJECTION + |sexe| else |ipl|;
    ipl[..from] + sexe + ipl[to..]
  }

  /** An image as it is after loading: what lies between the first stage and the fonts is descrambled. */
  function Loaded(ipl: seq<Byte>): seq<Byte>
    requires |ipl| == IPL_SIZE
  {
    ipl[..DECRYPT_START] + Masked(ipl[DECRYPT_START..IPL_ROM_FONT_SJIS], 0) + ipl[IPL_ROM_FONT_SJIS..]
  }

  /** load_ipl_file: an image of the wrong size stops the program. */
  method LoadIplFile(bios: array<Byte>) returns (ok: bool)
    modifies bios
    ensures ok == (bios.Length == IPL_SIZE)
    ensures bios[..] == if bios.Length == IPL_SIZE then old(Loaded(bios[..])) else old(bios[..])
  {
    if bios.Length != IPL_SIZE {
      return false;
    }
    Descrambler(bios, DECRYPT_START, IPL_ROM_FONT_SJIS - DECRYPT_START);
    ok := true;
  }

  lemma MaskedSlice(s: seq<Byte>, from: nat, i: nat, j: nat)
    requires i <= j <= |s|
    ensures Masked(s, from)[i..j] == Masked(s[i..j], from + i)
  {
    hide Key, XorByte;
    forall k | 0 <= k < j - i ensures Masked(s, from)[i..j][k] == Masked(s[i..j], from + i)[k] {
      assert from + i + k == from + (i + k);
    }
  }

  lemma MaskedConcat(s: seq<Byte>, t: seq<Byte>, from: nat)
    ensures Masked(s + t, from) == Masked(s, from) + Masked(t, from + |s|)
  {
    hide Key, XorByte;
    MaskedSlice(s + t, from, 0, |s|);
    MaskedSlice(s + t, from, |s|, |s + t|);
    assert (s + t)[..|s|] == s && (s + t)[|s|..] == t;
  }

  lemma MaskedTwice(s: seq<Byte>, from: nat)
    ensures Masked(Masked(s, from), from) == s
  {
    hide Key, XorByte;
    forall i | 0 <= i < |s| ensures Masked(Masked(s, from), from)[i] == s[i] {
      XorByteTwice(s[i], Key(from + i));
    }
  }

  /**
   * The chain: an executable that ends before the fonts, scrambled and injected into a ROM image, is found in
   * clear in the loaded image, and every other byte is what loading the untouched image would have given.
   */
  lemma ExecutableRestored(ipl: seq<Byte>, exe: seq<Byte>)
    requires |ipl| == IPL_SIZE && INJECTION + |exe| <= IPL_ROM_FONT_SJIS
    ensures var image := Inject(ipl, Masked(exe, PREFIX));
            |image| == IPL_SIZE && Loaded(image) == Inject(Loaded(ipl), exe)
  {
    hide Masked;
    var end := INJECTION + |exe|;
    var sexe := Masked(exe, PREFIX);
    var image := Inject(ipl, sexe);
    var a, b := ipl[DECRYPT_START..INJECTION], ipl[end..IPL_ROM_FONT_SJIS];
    assert image[DECRYPT_START..IPL_ROM_FONT_SJIS] == a + (sexe + b);
    assert ipl[DECRYPT_START..IPL_ROM_FONT_SJIS] == a + (ipl[INJECTION..end] + b);
    MaskedConcat(a, sexe + b, 0);
    MaskedConcat(sexe, b, PREFIX);
    MaskedConcat(a, ipl[INJECTION..end] + b, 0);
    MaskedConcat(ipl[INJECTION..end], b, PREFIX);
    MaskedTwice(exe, PREFIX);
    assert Loaded(image) == ipl[..DECRYPT_START] + Masked(a, 0) + exe + Masked(b, PREFIX + |exe|) + ipl[IPL_ROM_FONT_SJIS..];
  }

  /** An executable that runs into the fonts keeps its scrambled form from there on. */
  lemma ExecutableBeyondFonts(ipl: seq<Byte>, exe: seq<Byte>, k: nat)
    requires |ipl| == IPL_SIZE && INJECTION + |exe| <= IPL_SIZE && k < |exe| && IPL_ROM_FONT_SJIS <= INJECTION + k
    ensures var image := Inject(ipl, Masked(exe, PREFIX));
            |image| == IPL_SIZE && Loaded(image)[INJECTION + k] == XorByte(exe[k], Key(PREFIX + k))
  {
    hide Key, XorByte;
  }
}
