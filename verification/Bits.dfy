/** Powers of two, bytes, and bit strings in the two orders DEFLATE uses. */
module Bits {

  type Byte = x: nat | x < 256
  type Bit = x: nat | x < 2
  type U32 = x: nat | x < 0x1_0000_0000

  function Pow2(n: nat): (r: nat)
    ensures r >= 1
  {
    if n == 0 then 1 else 2 * Pow2(n - 1)
  }

  lemma {:induction false} Pow2Add(m: nat, n: nat)
    ensures Pow2(m + n) == Pow2(m) * Pow2(n)
  {
    if m != 0 {
      Pow2Add(m - 1, n);
      assert 2 * (Pow2(m - 1) * Pow2(n)) == (2 * Pow2(m - 1)) * Pow2(n);
    }
  }

  lemma Pow2Of16()
    ensures Pow2(16) == 65536
  {
    Pow2Add(8, 8);
    assert Pow2(8) == 256;
  }

  lemma {:induction false} Pow2Mono(m: nat, n: nat)
    requires m <= n
    ensures Pow2(m) <= Pow2(n)
  {
    if m < n {
      Pow2Mono(m, n - 1);
    }
  }

  lemma DivModUnique(x: int, d: int, q: int, r: int)
    requires d > 0 && x == d * q + r && 0 <= r < d
    ensures x / d == q && x % d == r
  {
    var e := x / d - q;
    assert d * e == r - x % d;
    MulSmall(d, e);
  }

  lemma MulSmall(d: int, e: int)
    requires -d < d * e < d
    ensures e == 0
  {}

  lemma MulLe(c: int, x: int, y: int)
    requires c >= 0 && x <= y
    ensures c * x <= c * y
  {}

  lemma MulCancel(c: int, x: int, y: int)
    requires c > 0 && c * x <= c * y
    ensures x <= y
  {
    if y < x {
      MulLe(c, y + 1, x);
    }
  }

  lemma MulAssoc(x: int, y: int, z: int)
    ensures x * (y * z) == (x * y) * z
  {}

  /** `v` shifted right by `k` bits. */
  function Shr(v: nat, k: nat): nat {
    DivNat(v, Pow2(k));
    v / Pow2(k)
  }

  /** Bitwise or. */
  function Or(a: nat, b: nat): nat
    decreases a
  {
    if a == 0 then b else 2 * Or(a / 2, b / 2) + if a % 2 == 1 || b % 2 == 1 then 1 else 0
  }

  lemma {:induction false} OrNothing(a: nat)
    ensures Or(a, 0) == a
  {
    if a != 0 {
      OrNothing(a / 2);
    }
  }

  /** Or-ing in bits below all those of a word adds them. */
  lemma {:induction false} OrIsSum(a: nat, b: nat, k: nat)
    requires b < Pow2(k)
    ensures Or(Pow2(k) * a, b) == Pow2(k) * a + b
  {
    if k == 0 {
      OrNothing(a);
    } else {
      MulAssoc(2, Pow2(k - 1), a);
      OrIsSum(a, b / 2, k - 1);
    }
  }

  lemma DivNat(v: nat, d: nat)
    requires d > 0
    ensures v / d >= 0
  {}

  /** The bit of `b` at `i`; beyond the end the stream reads as zeros. */
  function BitAt(b: seq<Bit>, i: nat): Bit {
    if i < |b| then b[i] else 0
  }

  /** The bits of a byte string, least significant bit of each byte first (section 3.1.1 of RFC 1951). */
  function BitsOf(src: seq<Byte>): (b: seq<Bit>)
    ensures |b| == 8 * |src|
  {
    seq(8 * |src|, i requires 0 <= i < 8 * |src| => (src[i / 8] / Pow2(i % 8)) % 2)
  }

  /** The number held in `n` bits from `p`, first bit least significant. */
  function Val(b: seq<Bit>, p: nat, n: nat): nat
    decreases n
  {
    if n == 0 then 0 else BitAt(b, p) + 2 * Val(b, p + 1, n - 1)
  }

  /** The number held in `n` bits from `p`, first bit most significant. */
  function MsbVal(b: seq<Bit>, p: nat, n: nat): nat
    decreases n
  {
    if n == 0 then 0 else 2 * MsbVal(b, p, n - 1) + BitAt(b, p + n - 1)
  }

  function LsbBits(v: nat, n: nat): (w: seq<Bit>)
    ensures |w| == n
  {
    if n == 0 then [] else [v % 2] + LsbBits(v / 2, n - 1)
  }

  function MsbBits(v: nat, n: nat): (w: seq<Bit>)
    ensures |w| == n
  {
    if n == 0 then [] else MsbBits(v / 2, n - 1) + [v % 2]
  }

  /** The word `w` stands in `b` at position `p`, wholly inside `b`. */
  predicate At(b: seq<Bit>, p: nat, w: seq<Bit>) {
    p + |w| <= |b| && b[p..p + |w|] == w
  }

  lemma AtSlice(b: seq<Bit>, p: nat, q: nat)
    requires p <= q <= |b|
    ensures At(b, p, b[p..q])
  {}

  lemma AtEmpty(b: seq<Bit>, p: nat)
    requires p <= |b|
    ensures At(b, p, [])
  {}

  lemma AtConcat(b: seq<Bit>, p: nat, u: seq<Bit>, w: seq<Bit>)
    ensures At(b, p, u + w) <==> At(b, p, u) && At(b, p + |u|, w)
  {
    var m, n := p + |u|, p + |u| + |w|;
    if n <= |b| {
      assert b[p..n] == b[p..m] + b[m..n];
      if b[p..n] == u + w {
        assert b[p..m] == (u + w)[..|u|] == u;
        assert b[m..n] == (u + w)[|u|..] == w;
      }
    }
  }

  lemma {:induction false} ValBound(b: seq<Bit>, p: nat, n: nat)
    ensures Val(b, p, n) < Pow2(n)
    decreases n
  {
    if n != 0 {
      ValBound(b, p + 1, n - 1);
    }
  }

  lemma {:induction false} MsbValBound(b: seq<Bit>, p: nat, n: nat)
    ensures MsbVal(b, p, n) < Pow2(n)
    decreases n
  {
    if n != 0 {
      MsbValBound(b, p, n - 1);
    }
  }

  lemma {:induction false} ValSplit(b: seq<Bit>, p: nat, m: nat, n: nat)
    ensures Val(b, p, m + n) == Val(b, p, m) + Pow2(m) * Val(b, p + m, n)
    decreases m
  {
    if m != 0 {
      ValSplit(b, p + 1, m - 1, n);
      MulAssoc(2, Pow2(m - 1), Val(b, p + m, n));
    }
  }

  /** A number written in `n` bits stands at `p` exactly when reading `n` bits there gives the number. */
  lemma {:induction false} LsbAt(b: seq<Bit>, p: nat, v: nat, n: nat)
    requires v < Pow2(n)
    ensures At(b, p, LsbBits(v, n)) <==> p + n <= |b| && Val(b, p, n) == v
    decreases n
  {
    if n == 0 {
    } else {
      LsbAt(b, p + 1, v / 2, n - 1);
      AtConcat(b, p, [v % 2], LsbBits(v / 2, n - 1));
      if p + n <= |b| {
        assert b[p..p + 1] == [b[p]];
      }
    }
  }

  lemma {:induction false} MsbAt(b: seq<Bit>, p: nat, v: nat, n: nat)
    requires v < Pow2(n)
    ensures At(b, p, MsbBits(v, n)) <==> p + n <= |b| && MsbVal(b, p, n) == v
    decreases n
  {
    if n == 0 {
    } else {
      MsbAt(b, p, v / 2, n - 1);
      AtConcat(b, p, MsbBits(v / 2, n - 1), [v % 2]);
      if p + n <= |b| {
        assert b[p + n - 1..p + n] == [b[p + n - 1]];
      }
    }
  }

  lemma {:induction false} ByteVal(x: nat, n: nat, b: seq<Bit>, p: nat)
    requires x < Pow2(n)
    requires forall i | 0 <= i < n :: BitAt(b, p + i) == (x / Pow2(i)) % 2
    ensures Val(b, p, n) == x
    decreases n
  {
    if n != 0 {
      assert BitAt(b, p + 0) == (x / Pow2(0)) % 2;
      forall i | 0 <= i < n - 1
        ensures BitAt(b, p + 1 + i) == (x / 2 / Pow2(i)) % 2
      {
        assert BitAt(b, p + (i + 1)) == (x / Pow2(i + 1)) % 2;
        DivDiv(x, 2, Pow2(i));
      }
      ByteVal(x / 2, n - 1, b, p + 1);
    }
  }

  lemma DivDiv(x: nat, c: nat, d: nat)
    requires c > 0 && d > 0
    ensures c * d > 0 && x / (c * d) == x / c / d
  {
    var q, r := x / c, x % c;
    var q', r' := q / d, q % d;
    assert c * q == c * (d * q') + c * r';
    MulAssoc(c, d, q');
    MulLe(c, r', d - 1);
    MulLe(c, 1, d);
    DivModUnique(x, c * d, q', c * r' + r);
  }

  lemma ByteBits(src: seq<Byte>, k: nat, i: nat)
    requires i < 8
    ensures BitAt(BitsOf(src), 8 * k + i) == ((if k < |src| then src[k] else 0) / Pow2(i)) % 2
  {
    hide Pow2;
    var j := 8 * k + i;
    assert j / 8 == k && j % 8 == i;
    if k < |src| {
      assert BitsOf(src)[j] == (src[k] / Pow2(i)) % 2;
    } else {
      assert 0 / Pow2(i) == 0;
    }
  }

  /** Eight bits read at a byte boundary are that byte of the source, or zero past its end. */
  lemma SourceByte(src: seq<Byte>, k: nat)
    ensures Val(BitsOf(src), 8 * k, 8) == (if k < |src| then src[k] else 0)
  {
    hide BitsOf, Val, BitAt;
    var b, n := BitsOf(src), 8;
    var x := if k < |src| then src[k] else 0;
    forall i | 0 <= i < n
      ensures BitAt(b, 8 * k + i) == (x / Pow2(i)) % 2
    {
      ByteBits(src, k, i);
    }
    assert Pow2(8) == 256;
    ByteVal(x, n, b, 8 * k);
  }
}
