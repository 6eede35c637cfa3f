/** The 64-bit division routines of arith64.c, over numbers with explicit 64-bit wrap-around. */
module Arith64 {
  import opened Bits

  const TWO64: nat := 0x1_0000_0000_0000_0000
  const TWO63: nat := 0x8000_0000_0000_0000
  const MIN64: int := -0x8000_0000_0000_0000
  const TWO32: nat := 0x1_0000_0000

  type U64 = x: nat | x < 0x1_0000_0000_0000_0000
  type S64 = x: int | -0x8000_0000_0000_0000 <= x < 0x8000_0000_0000_0000

  /** C's conversion of a mathematical result to an unsigned 64-bit word. */
  function Wrap(x: int): U64 {
    x % TWO64
  }

  /** The word read as a signed number. */
  function Signed(x: U64): S64 {
    if x < TWO63 then x else x - TWO64
  }

  function Shl(x: U64, k: nat): U64 {
    Wrap(x * Pow2(k))
  }

  /** The sign bit spread over the word: the arithmetic shift right by 63. */
  function SignMask(x: U64): U64 {
    if x < TWO63 then 0 else TWO64 - 1
  }

  /** x & mask, for a mask of all zeros or all ones. */
  function Masked(x: U64, mask: U64): U64
    requires mask == 0 || mask == TWO64 - 1
  {
    if mask == 0 then 0 else x
  }

  // ----- counting leading zeros -----

  /** `n` is the number of leading zero bits of the 64-bit word `a`. */
  predicate IsClz(a: U64, n: nat) {
    n < 64 && TWO63 <= a * Pow2(n) < TWO64
  }

  lemma ClzStepMath(a: U64, n: nat, b: nat, a0: U64)
    requires 2 * b <= 64 && a == a0 * Pow2(n) && Pow2(64 - 2 * b) <= a < Pow2(64 - b)
    ensures a * Pow2(b) == a0 * Pow2(n + b) && Pow2(64 - b) <= a * Pow2(b) < TWO64
  {
    hide Pow2;
    Pow2Of64();
    Pow2Add(64 - b, b);
    Pow2Add(64 - 2 * b, b);
    Pow2Add(n, b);
    MulLt(Pow2(b), a, Pow2(64 - b));
    MulLe(Pow2(b), Pow2(64 - 2 * b), a);
    MulAssoc(a0, Pow2(n), Pow2(b));
  }

  /** One line of __clzdi2: if the top `b` bits are clear, shift them out and count them. */
  method ClzStep(a: U64, n: nat, b: nat, ghost a0: U64) returns (a': U64, n': nat)
    requires 2 * b <= 64 && a == a0 * Pow2(n) && a >= Pow2(64 - 2 * b)
    ensures a' == a0 * Pow2(n') && a' >= Pow2(64 - b) && (n' == n || n' == n + b)
  {
    hide Pow2;
    if a < Pow2(64 - b) {
      ClzStepMath(a, n, b, a0);
      SmallWrap(a * Pow2(b));
      a', n' := Shl(a, b), n + b;
    } else {
      a', n' := a, n;
    }
  }

  lemma SmallWrap(x: int)
    requires 0 <= x < TWO64
    ensures Wrap(x) == x
  {}

  /** __clzdi2. */
  method Clz(a: U64) returns (n: nat)
    requires a > 0
    ensures IsClz(a, n)
  {
    hide Pow2, Shl;
    Pow2Zero();
    Pow2Of64();
    var w := a;
    n := 0;
    w, n := ClzStep(w, n, 32, a);
    w, n := ClzStep(w, n, 16, a);
    w, n := ClzStep(w, n, 8, a);
    w, n := ClzStep(w, n, 4, a);
    w, n := ClzStep(w, n, 2, a);
    assert Pow2(62) == TWO63 / 2 by { Pow2Succ(62); }
    if w < TWO63 {
      Pow2Succ(n);
      MulAssoc(a, Pow2(n), 2);
      n := n + 1;
    }
  }

  lemma Pow2Zero()
    ensures Pow2(0) == 1
  {}

  lemma Pow2Succ(k: nat)
    ensures Pow2(k + 1) == 2 * Pow2(k)
  {}

  /** At most one number qualifies. */
  lemma ClzUnique(a: U64, m: nat, n: nat)
    requires IsClz(a, m) && IsClz(a, n)
    ensures m == n
  {
    if m < n {
      ClzLess(a, m, n);
    } else if n < m {
      ClzLess(a, n, m);
    }
  }

  lemma ClzLess(a: U64, m: nat, n: nat)
    requires m < n
    ensures a * Pow2(n) >= 2 * (a * Pow2(m))
  {
    Pow2Mono(m + 1, n);
    MulLe(a, Pow2(m + 1), Pow2(n));
    MulAssoc(a, 2, Pow2(m));
  }

  lemma Pow2Of64()
    ensures Pow2(32) == TWO32 && Pow2(63) == TWO63 && Pow2(64) == TWO64
  {
    Pow2Of16();
    Pow2Add(16, 16);
    Pow2Add(32, 32);
    assert Pow2(64) == 2 * Pow2(63);
  }

  lemma MulLt(c: int, x: int, y: int)
    requires c > 0 && x < y
    ensures c * x < c * y
  {}

  // ----- unsigned division -----

  /**
   * The state of the long division after `j` of `bits` rounds: the first bits of the numerator have been
   * divided, the rest stand at the top of the register `reg`, and the quotient bits found so far at its
   * bottom, the last one still in `wrap`.
   */
  ghost predicate Dividing(a: U64, b: U64, bits: nat, j: nat, rem: U64, reg: U64, wrap: U64, q: nat)
  {
    && 1 <= bits <= 63 && j <= bits && b > 0
    && Shr(a, bits - j) == q * b + rem && rem < b
    && q < Pow2(j) && (wrap == 0 || wrap == TWO64 - 1)
    && q % 2 == wrap % 2
    && reg == (a % Pow2(bits - j)) * Pow2(64 - (bits - j)) + q / 2
  }

  lemma SplitBit(a: nat, h: nat)
    requires h > 0
    ensures 2 * h > 0 && a / (2 * h) == a / h / 2 && a % (2 * h) == (a / h % 2) * h + a % h
  {
    var x, s := a / h, a % h;
    var t := x % 2;
    assert a == h * x + s;
    assert h * x == h * (2 * (x / 2)) + h * t;
    MulAssoc(h, 2, x / 2);
    MulLe(h, t, 1);
    DivModUnique(a, 2 * h, x / 2, t * h + s);
  }

  lemma TopOfRegister(t: nat, h: nat, s: nat, c: nat, low: nat)
    requires t < 2 && s < h && low < c && h * c == TWO63
    ensures var reg := (t * h + s) * c + low;
            reg < TWO64 && reg / TWO63 == t && 2 * reg - TWO64 * t == s * (2 * c) + 2 * low
  {
    assert (t * h + s) * c == t * (h * c) + s * c;
    MulLe(c, s, h - 1);
    assert c * (h - 1) == TWO63 - c;
    var rest := s * c + low;
    DivModUnique(TWO63 * t + rest, TWO63, t, rest);
  }

  /** The next numerator bit: the top bit of the register. */
  lemma TopBit(a: U64, m: nat, low: nat)
    requires 1 <= m <= 63 && low < Pow2(64 - m)
    ensures var reg := (a % Pow2(m)) * Pow2(64 - m) + low;
            var t := Shr(a, m - 1) % 2;
            && reg < TWO64 && reg / TWO63 == t
            && Shr(a, m - 1) == 2 * Shr(a, m) + t
            && 2 * reg - TWO64 * t == (a % Pow2(m - 1)) * Pow2(64 - (m - 1)) + 2 * low
  {
    hide Pow2;
    var h := Pow2(m - 1);
    Pow2Succ(m - 1);
    Pow2Succ(64 - m);
    Pow2Of64();
    Pow2Add(m - 1, 64 - m);
    SplitBit(a, h);
    TopOfRegister(a / h % 2, h, a % h, Pow2(64 - m), low);
  }

  /** The mask of line 184 is the comparison of divisor and partial remainder. */
  lemma MaskCompares(b: U64, rem: U64)
    requires b > 0 && ((b <= TWO63 && rem < 2 * b) || (b > TWO63 && b <= rem))
    ensures SignMask(Wrap(b - rem - 1)) == if b > rem then 0 else TWO64 - 1
  {
    if b > rem {
      SmallWrap(b - rem - 1);
    } else {
      DivModUnique(b - rem - 1, TWO64, -1, b - rem - 1 + TWO64);
    }
  }

  /** The mask keeps the divisor just when it is to be subtracted; its low bit is the quotient bit. */
  lemma MaskSelects(b: U64, rem: U64)
    requires b > 0 && ((b <= TWO63 && rem < 2 * b) || (b > TWO63 && b <= rem))
    ensures var mask := SignMask(Wrap(b - rem - 1));
            && (mask == 0 || mask == TWO64 - 1) && mask % 2 == (if b > rem then 0 else 1)
            && Masked(b, mask) == (if b > rem then 0 else b) && 0 <= rem - Masked(b, mask) < b
  {
    MaskCompares(b, rem);
  }

  /** Line 182 loses no bit: the partial remainder stays below 2^63 whenever it is doubled. */
  lemma RemFits(a: U64, b: U64, bits: nat, j: nat, rem: U64, q: nat, t: nat)
    requires 1 <= bits <= 63 && j < bits && rem < b && t < 2 && q < Pow2(j)
    requires b <= TWO63 || (bits == 1 && a >= b)
    requires Shr(a, bits - j) == q * b + rem && Shr(a, bits - j - 1) == 2 * Shr(a, bits - j) + t
    ensures 2 * rem + t < TWO64
    ensures (b <= TWO63 && 2 * rem + t < 2 * b) || (b > TWO63 && b <= 2 * rem + t)
  {
    if b > TWO63 {
      Pow2Zero();
      assert q == 0 && bits - j - 1 == 0;
      assert Shr(a, 0) == a;
    }
  }

  lemma LowRoom(q: nat, j: nat, k: nat)
    requires q < Pow2(j) && j <= k
    ensures q / 2 < Pow2(k)
  {
    Pow2Mono(j, k);
  }

  lemma NextQuotient(x: nat, q: nat, b: nat, rem: nat, t: nat, q': nat, rem': int)
    requires x == q * b + rem
    requires (q' == 2 * q && rem' == 2 * rem + t) || (q' == 2 * q + 1 && rem' == 2 * rem + t - b)
    ensures 2 * x + t == q' * b + rem'
  {}

  /** Doubling the register drops its top bit; the bit shifted in is the previous quotient bit. */
  lemma ShiftRegister(reg: U64, t: nat, low: nat, rest: nat, q: nat)
    requires reg / TWO63 == t && 2 * reg - TWO64 * t == rest + 2 * low && low == q / 2 && t < 2
    ensures Wrap(reg * 2) + q % 2 == rest + q < TWO64
  {
    DivModUnique(reg * 2, TWO64, t, reg * 2 - TWO64 * t);
  }

  /** What one round makes of the state: `t` is the numerator bit brought down, `take` whether the divisor is subtracted. */
  lemma RoundHolds(a: U64, b: U64, bits: nat, j: nat, rem: U64, reg: U64, wrap: U64, q: nat, t: nat, take: bool)
    requires Dividing(a, b, bits, j, rem, reg, wrap, q) && j < bits && t == Shr(a, bits - j - 1) % 2
    requires b <= TWO63 || (bits == 1 && a >= b)
    requires take == (b <= 2 * rem + t)
    ensures 2 * rem + t < TWO64 && reg / TWO63 == t && Wrap(reg * 2) + wrap % 2 < TWO64
    ensures (b <= TWO63 && 2 * rem + t < 2 * b) || (b > TWO63 && b <= 2 * rem + t)
    ensures var r := 2 * rem + t;
            Dividing(a, b, bits, j + 1, if take then r - b else r, Wrap(reg * 2) + wrap % 2,
                     if take then TWO64 - 1 else 0, 2 * q + if take then 1 else 0)
  {
    hide Pow2, Shr, Wrap;
    var m := bits - j;
    var low := (a % Pow2(m - 1)) * Pow2(64 - (m - 1));
    LowRoom(q, j, 64 - m);
    TopBit(a, m, q / 2);
    RemFits(a, b, bits, j, rem, q, t);
    ShiftRegister(reg, t, q / 2, low, q);
    Pow2Succ(j);
    assert bits - (j + 1) == m - 1;
    hide Dividing;
    var r, q' := 2 * rem + t, 2 * q + if take then 1 else 0;
    var rem' := if take then r - b else r;
    NextQuotient(Shr(a, m), q, b, rem, t, q', rem');
    DividingIntro(a, b, bits, j + 1, rem', Wrap(reg * 2) + wrap % 2, if take then TWO64 - 1 else 0, q', low);
  }

  lemma DividingIntro(a: U64, b: U64, bits: nat, j: nat, rem: U64, reg: U64, wrap: U64, q: nat, high: nat)
    requires 1 <= bits <= 63 && j <= bits && b > 0
    requires Shr(a, bits - j) == q * b + rem && rem < b
    requires q < Pow2(j) && (wrap == 0 || wrap == TWO64 - 1) && q % 2 == wrap % 2
    requires high == (a % Pow2(bits - j)) * Pow2(64 - (bits - j)) && reg == high + q / 2
    ensures Dividing(a, b, bits, j, rem, reg, wrap, q)
  {
    hide Pow2, Shr;
  }

  /** One round of lines 182-185. */
  method DivRound(rem: U64, reg: U64, wrap: U64, b: U64, ghost a: U64, ghost bits: nat, ghost j: nat, ghost q: nat)
    returns (rem': U64, reg': U64, wrap': U64, ghost q': nat)
    requires Dividing(a, b, bits, j, rem, reg, wrap, q) && j < bits
    requires b <= TWO63 || (bits == 1 && a >= b)
    ensures Dividing(a, b, bits, j + 1, rem', reg', wrap', q')
  {
    assert b > 0 && j < bits;
    hide Dividing, Pow2, Shr, Wrap, SignMask, Masked;
    ghost var t := Shr(a, bits - j - 1) % 2;
    ghost var take := b <= 2 * rem + t;
    RoundHolds(a, b, bits, j, rem, reg, wrap, q, t, take);
    var r: U64 := rem * 2 + reg / TWO63;
    MaskSelects(b, r);
    reg' := Wrap(reg * 2) + wrap % 2;
    wrap' := SignMask(Wrap(b - r - 1));
    rem' := r - Masked(b, wrap');
    q' := 2 * q + if take then 1 else 0;
  }

  /** Shifted left by `bits`, the divisor exceeds the numerator. */
  lemma DivisorReaches(a: U64, b: U64, ca: nat, cb: nat)
    requires IsClz(a, ca) && IsClz(b, cb) && ca <= cb
    ensures a < b * Pow2(cb - ca + 1)
  {
    hide Pow2;
    var d := b * Pow2(cb - ca + 1);
    Pow2Add(cb - ca + 1, ca);
    Pow2Succ(cb);
    MulAssoc(b, Pow2(cb - ca + 1), Pow2(ca));
    MulAssoc(b, 2, Pow2(cb));
    assert d * Pow2(ca) == 2 * (b * Pow2(cb));
    if a >= d {
      MulLe(Pow2(ca), d, a);
      assert false;
    }
  }

  /** The initial shift: the leading bits of the numerator are fewer than those of the divisor. */
  lemma StartShift(a: U64, b: U64, ca: nat, cb: nat)
    requires 2 <= b <= a && IsClz(a, ca) && IsClz(b, cb)
    ensures 1 <= cb - ca + 1 <= 63 && Shr(a, cb - ca + 1) < b
    ensures b <= TWO63 || cb - ca + 1 == 1
  {
    hide Pow2, IsClz;
    ClzOrder(a, b, ca, cb);
    DivisorReaches(a, b, ca, cb);
    DivBelow(a, Pow2(cb - ca + 1), b);
    if b > TWO63 {
      ClzTop(b, cb);
    }
  }

  lemma DivBelow(a: nat, d: nat, b: nat)
    requires d > 0 && a < b * d
    ensures a / d < b
  {
    assert a == d * (a / d) + a % d;
    if a / d >= b {
      MulLe(d, b, a / d);
      assert false;
    }
  }

  lemma ClzTop(b: U64, cb: nat)
    requires b > TWO63 && IsClz(b, cb)
    ensures cb == 0
  {
    if cb > 0 {
      Pow2Mono(1, cb);
      assert Pow2(1) == 2;
      MulLe(b, 2, Pow2(cb));
      assert false;
    }
  }

  lemma ClzOrder(a: U64, b: U64, ca: nat, cb: nat)
    requires 2 <= b <= a && IsClz(a, ca) && IsClz(b, cb)
    ensures ca <= cb <= 62
  {
    hide Pow2;
    if cb < ca {
      ClzLess(b, cb, ca);
      MulLe(Pow2(ca), b, a);
      assert false;
    }
    if cb >= 63 {
      Pow2Of64();
      MulLe(Pow2(63), 2, b);
      assert false;
    }
  }

  datatype Quotient = Quotient(q: U64, rem: U64) | DivideByZero

  /** __divmoddi4; dividing by zero traps. */
  method DivMod(a: U64, b: U64) returns (r: Quotient)
    ensures r.DivideByZero? <==> b == 0
    ensures b > 0 ==> a == r.q * b + r.rem && r.rem < b
  {
    if b > a {
      return Quotient(0, a);
    }
    if b < TWO32 {
      if b == 0 {
        return DivideByZero;
      }
      if b == 1 {
        return Quotient(a, 0);
      }
      if a < TWO32 {
        DivFits(a, b);
        return Quotient(a / b, a % b);
      }
    }
    r := LongDivision(a, b);
  }

  lemma DivFits(a: U64, b: U64)
    requires b > 0
    ensures 0 <= a / b <= a
  {
    MulLe(a / b, 1, b);
  }

  /** Lines 175-188. */
  method LongDivision(a: U64, b: U64) returns (r: Quotient)
    requires 2 <= b <= a
    ensures r.Quotient? && a == r.q * b + r.rem && r.rem < b
  {
    hide Pow2, Shr, Dividing;
    var cb := Clz(b);
    var ca := Clz(a);
    StartShift(a, b, ca, cb);
    var bits: nat := cb - ca + 1;
    ghost var n := bits;
    DivStart(a, b, bits);
    var rem: U64, reg: U64, wrap: U64 := Shr(a, bits), Shl(a, 64 - bits), 0;
    ghost var q := 0;
    while bits > 0
      invariant 0 <= bits <= n && Dividing(a, b, n, n - bits, rem, reg, wrap, q)
    {
      rem, reg, wrap, q := DivRound(rem, reg, wrap, b, a, n, n - bits, q);
      bits := bits - 1;
    }
    DivEnd(a, b, n, rem, reg, wrap, q);
    r := Quotient(Wrap(reg * 2) + wrap % 2, rem);
  }

  lemma DivStart(a: U64, b: U64, bits: nat)
    requires 1 <= bits <= 63 && Shr(a, bits) < b
    ensures Dividing(a, b, bits, 0, Shr(a, bits), Shl(a, 64 - bits), 0, 0)
  {
    hide Pow2;
    Pow2Zero();
    Pow2Of64();
    Pow2Add(bits, 64 - bits);
    var h, c := Pow2(bits), Pow2(64 - bits);
    var x, s := a / h, a % h;
    assert a == h * x + s;
    MulAssoc(x, h, c);
    assert a * c == TWO64 * x + s * c;
    MulLt(c, s, h);
    DivModUnique(a * c, TWO64, x, s * c);
  }

  lemma DivEnd(a: U64, b: U64, bits: nat, rem: U64, reg: U64, wrap: U64, q: nat)
    requires Dividing(a, b, bits, bits, rem, reg, wrap, q)
    ensures a == q * b + rem && rem < b && q < TWO63 && Wrap(reg * 2) + wrap % 2 == q
  {
    hide Pow2;
    Pow2Zero();
    Pow2Of64();
    Pow2Mono(bits, 63);
    assert Shr(a, 0) == a;
    assert a % 1 == 0;
    assert reg == q / 2;
    SmallWrap(reg * 2);
  }

  // ----- signed division -----

  /** arith64_neg: x inverted and incremented when the sign word is negative. */
  function NegIf(x: U64, sign: S64): U64 {
    if sign < 0 then Wrap(TWO64 - 1 - x + 1) else x
  }

  /** The sign of a ^ b as a signed word: negative when exactly one of them is. */
  function XorSign(a: S64, b: S64): S64 {
    if (a < 0) != (b < 0) then -1 else 0
  }

  /** The bits of a signed word. */
  function Bits64(x: S64): U64 {
    Wrap(x)
  }

  function Abs(x: int): nat {
    if x < 0 then -x else x
  }

  /** Division rounding towards zero, the remainder taking the sign of the dividend. */
  function TruncDiv(a: int, b: int): int
    requires b != 0
  {
    if (a < 0) == (b < 0) then Abs(a) / Abs(b) else -(Abs(a) / Abs(b))
  }

  lemma AbsWord(x: S64)
    ensures NegIf(Bits64(x), x) == Abs(x)
  {
    if x < 0 {
      DivModUnique(x, TWO64, -1, x + TWO64);
      SmallWrap(0 - x);
    }
  }

  lemma NegWord(x: nat, sign: S64)
    requires x <= TWO63
    ensures Signed(NegIf(x, sign)) == if sign < 0 then 0 - x else if x == TWO63 then MIN64 else x
  {
    if sign < 0 && x == 0 {
      DivModUnique(TWO64, TWO64, 1, 0);
    }
  }

  lemma QuotientUnique(a: nat, b: nat, q: nat, r: nat)
    requires b > 0 && a == q * b + r && r < b
    ensures q == a / b && r == a % b && q <= a
  {
    DivModUnique(a, b, q, r);
    MulLe(q, 1, b);
  }

  /**
   * __divdi3: truncating signed division.  The one quotient that does not fit, -2^63 / -1, wraps to -2^63.
   */
  method DivSigned(a: S64, b: S64) returns (ok: bool, q: S64)
    ensures ok == (b != 0)
    ensures ok && !(a == MIN64 && b == -1) ==> q == TruncDiv(a, b)
    ensures ok && a == MIN64 && b == -1 ==> q == MIN64
  {
    hide NegIf, Bits64, Signed;
    AbsWord(a);
    AbsWord(b);
    var r := DivMod(NegIf(Bits64(a), a), NegIf(Bits64(b), b));
    if r.DivideByZero? {
      return false, 0;
    }
    QuotientUnique(Abs(a), Abs(b), r.q, r.rem);
    NegWord(r.q, XorSign(a, b));
    SmallQuotient(Abs(a), Abs(b), r.q, r.rem);
    ok, q := true, Signed(NegIf(r.q, XorSign(a, b)));
  }

  lemma SmallQuotient(a: nat, b: nat, q: nat, r: nat)
    requires b > 0 && a == q * b + r && a <= TWO63
    ensures q <= TWO63 && (q == TWO63 ==> b == 1 && a == TWO63)
  {
    MulLe(q, 1, b);
    if b >= 2 {
      MulLe(q, 2, b);
    }
  }

  /** __moddi3: the remainder of truncating division. */
  method ModSigned(a: S64, b: S64) returns (ok: bool, m: S64)
    ensures ok == (b != 0)
    ensures ok ==> m == a - b * TruncDiv(a, b) && Abs(m) < Abs(b) && (a >= 0 ==> m >= 0) && (a <= 0 ==> m <= 0)
  {
    hide NegIf, Bits64, Signed;
    AbsWord(a);
    AbsWord(b);
    var r := DivMod(NegIf(Bits64(a), a), NegIf(Bits64(b), b));
    if r.DivideByZero? {
      return false, 0;
    }
    QuotientUnique(Abs(a), Abs(b), r.q, r.rem);
    NegWord(r.rem, a);
    TruncRemainder(a, b, r.q, r.rem);
    ok, m := true, Signed(NegIf(r.rem, a));
  }

  lemma TruncRemainder(a: int, b: int, q: nat, r: nat)
    requires b != 0 && Abs(a) == q * Abs(b) + r && q == Abs(a) / Abs(b)
    ensures a - b * TruncDiv(a, b) == if a < 0 then 0 - r else r
  {
    assert b * (0 - q) == -(b * q) && (0 - b) * q == -(b * q);
  }

  // ----- shifts, on words of two halves -----

  /** A 64-bit word from its two halves. */
  function Word(hi: U32, lo: U32): U64 {
    hi * TWO32 + lo
  }

  lemma Pow2Of32()
    ensures Pow2(32) == TWO32
  {
    hide Pow2;
    Pow2Of16();
    Pow2Add(16, 16);
  }

  /** A half shifted left: what stays in it, and what is lost, for a factor `p` of 2^32. */
  lemma HalfLeft(x: int, p: nat, q: nat)
    requires p > 0 && q > 0 && p * q == TWO32
    ensures x * p == x / q * TWO32 + x % q * p && 0 <= x % q * p <= TWO32 - p
    ensures x * p % TWO32 == x % q * p
  {
    var d, m := x / q, x % q;
    assert x == q * d + m;
    MulAssoc(p, q, d);
    assert x * p == p * (q * d) + p * m;
    MulLe(p, m, q - 1);
    assert p * (q - 1) == p * q - p;
    MulLe(p, 0, m);
    DivModUnique(x * p, TWO32, d, p * m);
  }

  /** Or-ing the part carried over from the other half adds it. */
  lemma CarriedOver(x: int, p: nat, q: nat, k: nat, low: nat)
    requires p == Pow2(k) && q > 0 && p * q == TWO32 && low < p
    ensures 0 <= x * p % TWO32 && Or(x * p % TWO32, low) == x % q * p + low < TWO32
  {
    hide Or, Pow2;
    HalfLeft(x, p, q);
    OrIsSum(x % q, low, k);
  }

  lemma HalfRight(x: U32, p: nat, q: nat)
    requires p > 0 && q > 0 && p * q == TWO32
    ensures 0 <= x / p < q && 0 <= x / p < TWO32
  {
    DivNat(x, p);
    assert x == p * (x / p) + x % p;
    if x / p >= q {
      MulLe(p, q, x / p);
      assert false;
    }
    MulLe(q, 1, p);
  }

  lemma Halves(k: nat)
    requires k <= 32
    ensures Pow2(k) * Pow2(32 - k) == TWO32
  {
    hide Pow2;
    Pow2Add(k, 32 - k);
    Pow2Of32();
  }

  /** __ashldi3: the shift amount is taken modulo 64. */
  method ShiftLeft(a: U64, b: int) returns (r: U64)
    ensures r == Wrap(a * Pow2(b % 64))
  {
    hide Pow2, Or, Wrap;
    var k: nat := b % 64;
    var hi: U32, lo: U32 := a / TWO32, a % TWO32;
    if k >= 32 {
      hi := lo * Pow2(k - 32) % TWO32;
      FarLeft(a, k);
      lo := 0;
    } else if k > 0 {
      Halves(k);
      HalfRight(lo, Pow2(32 - k), Pow2(k));
      CarriedOver(hi, Pow2(k), Pow2(32 - k), k, lo / Pow2(32 - k));
      NearLeft(a, k);
      hi := Or(hi * Pow2(k) % TWO32, lo / Pow2(32 - k));
      lo := lo * Pow2(k) % TWO32;
    } else {
      NoShift(a);
    }
    r := Word(hi, lo);
  }

  lemma NoShift(a: U64)
    ensures Wrap(a * Pow2(0)) == a && a / Pow2(0) == a && Word(a / TWO32, a % TWO32) == a
  {}

  lemma FarLeft(a: U64, k: nat)
    requires 32 <= k < 64
    ensures Wrap(a * Pow2(k)) == Word((a % TWO32) * Pow2(k - 32) % TWO32, 0)
  {
    hide Pow2;
    Pow2Add(32, k - 32);
    Pow2Of32();
    var p, lo, hi := Pow2(k - 32), a % TWO32, a / TWO32;
    assert a == hi * TWO32 + lo;
    MulAssoc(a, TWO32, p);
    MulAssoc(hi, TWO32, p);
    var m, d := lo * p % TWO32, lo * p / TWO32;
    assert a * p == hi * p * TWO32 + lo * p by { assert (hi * TWO32 + lo) * p == hi * TWO32 * p + lo * p; }
    assert a * (TWO32 * p) == a * p * TWO32;
    DivModUnique(a * (TWO32 * p), TWO64, hi * p + d, m * TWO32);
  }

  lemma NearLeft(a: U64, k: nat)
    requires 0 < k < 32
    ensures var hi, lo, p, q := a / TWO32, a % TWO32, Pow2(k), Pow2(32 - k);
            && hi % q * p + lo / q < TWO32
            && Wrap(a * p) == (hi % q * p + lo / q) * TWO32 + lo % q * p
            && lo * p % TWO32 == lo % q * p
  {
    hide Pow2, Or;
    var hi, lo, p, q := a / TWO32, a % TWO32, Pow2(k), Pow2(32 - k);
    Halves(k);
    HalfRight(lo, q, p);
    HalfLeft(hi, p, q);
    HalfLeft(lo, p, q);
    assert a * p == hi * p * TWO32 + lo * p by { LeftParts(a, hi, lo, p); }
    LeftWord(a * p, hi / q, hi % q * p + lo / q, lo % q * p);
  }

  lemma LeftParts(a: int, hi: int, lo: int, p: int)
    requires a == hi * TWO32 + lo
    ensures a * p == hi * p * TWO32 + lo * p
  {
    assert (hi * TWO32 + lo) * p == hi * TWO32 * p + lo * p;
  }

  lemma LeftWord(x: int, lost: int, h: int, l: int)
    requires 0 <= h < TWO32 && 0 <= l < TWO32 && x == (lost * TWO32 + h) * TWO32 + l
    ensures Wrap(x) == h * TWO32 + l
  {
    DivModUnique(x, TWO64, lost, h * TWO32 + l);
  }

  /** A number of 32 bits above 32 more, divided by a factor of 2^32. */
  lemma RightParts(x: int, hi: int, lo: U32, p: nat, q: nat)
    requires p > 0 && q > 0 && p * q == TWO32 && x == hi * TWO32 + lo
    ensures x / p == hi / p * TWO32 + (hi % p * q + lo / p) && 0 <= hi % p * q + lo / p < TWO32
  {
    HalfLeft(hi, q, p);
    HalfRight(lo, p, q);
    var y := hi * q + lo / p;
    MulAssoc(p, q, hi);
    assert p * y == p * (hi * q) + p * (lo / p);
    DivModUnique(x, p, y, lo % p);
  }

  /** __lshrdi3. */
  method ShiftRight(a: U64, b: int) returns (r: U64)
    ensures r == a / Pow2(b % 64)
  {
    hide Pow2, Or;
    var k: nat := b % 64;
    var hi: U32, lo: U32 := a / TWO32, a % TWO32;
    if k >= 32 {
      FarRight(a, hi, lo, k);
      Halves(k - 32);
      HalfRight(hi, Pow2(k - 32), Pow2(64 - k));
      lo := hi / Pow2(k - 32);
      hi := 0;
    } else if k > 0 {
      Halves(k);
      HalfRight(lo, Pow2(k), Pow2(32 - k));
      CarriedOver(hi, Pow2(32 - k), Pow2(k), 32 - k, lo / Pow2(k));
      RightParts(a, hi, lo, Pow2(k), Pow2(32 - k));
      HalfRight(hi, Pow2(k), Pow2(32 - k));
      lo := Or(hi * Pow2(32 - k) % TWO32, lo / Pow2(k));
      hi := hi / Pow2(k);
    } else {
      NoShift(a);
    }
    r := Word(hi, lo);
  }

  lemma FarRight(x: int, hi: int, lo: U32, k: nat)
    requires 32 <= k < 64 && x == hi * TWO32 + lo
    ensures x / Pow2(k) == hi / Pow2(k - 32)
  {
    hide Pow2;
    Pow2Add(32, k - 32);
    Pow2Of32();
    var p := Pow2(k - 32);
    var d, m := hi / p, hi % p;
    MulAssoc(TWO32, p, d);
    assert TWO32 * (p * d) + TWO32 * m == hi * TWO32;
    MulLe(TWO32, m, p - 1);
    DivModUnique(x, TWO32 * p, d, TWO32 * m + lo);
  }

  type S32 = x: int | -0x8000_0000 <= x < 0x8000_0000

  function SignedHalf(x: U32): S32 {
    if x < 0x8000_0000 then x else x - TWO32
  }

  function UnsignedHalf(x: int): U32 {
    x % TWO32
  }

  /** __ashrdi3: a signed word is shifted towards minus infinity. */
  method ShiftRightSigned(a: S64, b: int) returns (r: S64)
    ensures r == a / Pow2(b % 64)
  {
    hide Pow2, Or;
    var k: nat := b % 64;
    var hi: U32, lo: U32 := UnsignedHalf(a / TWO32), a % TWO32;
    var top: S32 := SignedHalf(hi);
    assert a == top * TWO32 + lo;
    if k >= 32 {
      FarRight(a, top, lo, k);
      SmallerHalf(top, Pow2(k - 32));
      lo := UnsignedHalf(top / Pow2(k - 32));
      top := if top < 0 then -1 else 0;
    } else if k > 0 {
      Halves(k);
      HalfRight(lo, Pow2(k), Pow2(32 - k));
      CarriedOver(hi, Pow2(32 - k), Pow2(k), 32 - k, lo / Pow2(k));
      SameRemainder(hi, top, Pow2(k), Pow2(32 - k));
      RightParts(a, top, lo, Pow2(k), Pow2(32 - k));
      SmallerHalf(top, Pow2(k));
      lo := Or(hi * Pow2(32 - k) % TWO32, lo / Pow2(k));
      top := top / Pow2(k);
    } else {
      assert Pow2(0) == 1 by { Pow2Zero(); }
    }
    r := top * TWO32 + lo;
  }

  /** Dividing brings a half nearer to zero, or to minus one. */
  lemma SmallerHalf(x: S32, p: nat)
    requires p > 0
    ensures if x < 0 then x <= x / p < 0 else 0 <= x / p <= x
  {
    var d := x / p;
    assert x == p * d + x % p;
    if x >= 0 {
      DivNat(x, p);
      MulLe(d, 1, p);
    } else {
      if d >= 0 {
        MulLe(p, 0, d);
        assert false;
      }
      MulLe(-d, 1, p);
      assert -d * p == -(p * d);
      if d < x {
        MulLe(p, d + 1, x);
        MulLe(-x, 1, p);
        assert false;
      }
    }
  }

  lemma SameRemainder(hi: U32, top: int, p: nat, q: nat)
    requires p > 0 && q > 0 && p * q == TWO32 && (hi == top || hi == top + TWO32)
    ensures hi % p == top % p
  {
    if hi != top {
      DivModUnique(hi, p, top / p + q, top % p);
    }
  }
}
