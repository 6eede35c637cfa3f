/**
 * What the tables and instructions of the DEFLATE grammar come to, in numbers: every match length, distance and
 * run of code lengths is written in exactly one way, and the fields of headers and blocks stand where
 * sections 3.2.2 to 3.2.7 of RFC 1951 put them.
 */
module DeflateLaws {
  import opened Bits
  import opened Canonical
  import opened Deflate
  import opened Decoder
  import opened Inverse
  import opened Streams

  // ----- match lengths and distances -----

  const POWERS: seq<nat> := [1, 2, 4, 8, 16, 32, 64, 128, 256, 512, 1024, 2048, 4096, 8192]

  /** The length symbols follow each other without gap or overlap, with one extra bit more every four symbols. */
  lemma LengthTable(l: nat)
    requires l < 28
    ensures LenBits(l) == (if l < 8 then 0 else l / 4 - 1)
    ensures LenBase(0) == 3 && LenBits(28) == 0 && LenBase(28) == 258
    ensures l < 27 ==> LenBase(l + 1) == LenBase(l) + Pow2(LenBits(l))
    ensures l == 27 ==> LenBase(l) + Pow2(LenBits(l)) == 259
  {
    LengthBits(l);
    LengthStep(l);
    hide LenBits, LenBase, Pow2;
    PowersBelow(LenBits(l));
  }

  lemma LengthBits(l: nat)
    requires l < 28
    ensures LenBits(l) == (if l < 8 then 0 else l / 4 - 1)
    ensures LenBase(0) == 3 && LenBits(28) == 0 && LenBase(28) == 258
  {}

  lemma LengthStep(l: nat)
    requires l < 28
    ensures LenBase(l) + POWERS[LenBits(l)] == if l == 27 then 259 else LenBase(l + 1)
  {
    hide LenBase, LenBits;
    if l < 14 {
      LengthStepLow(l);
    } else {
      LengthStepHigh(l);
    }
  }

  lemma LengthStepLow(l: nat)
    requires l < 14
    ensures LenBase(l) + POWERS[LenBits(l)] == LenBase(l + 1)
  {}

  lemma LengthStepHigh(l: nat)
    requires 14 <= l < 28
    ensures LenBase(l) + POWERS[LenBits(l)] == if l == 27 then 259 else LenBase(l + 1)
  {}

  /** The distance symbols do so too, with one extra bit more every two symbols. */
  lemma DistTable(d: nat)
    requires d < 30
    ensures DistBits(d) == (if d < 4 then 0 else d / 2 - 1)
    ensures DistBase(0) == 1
    ensures d < 29 ==> DistBase(d + 1) == DistBase(d) + Pow2(DistBits(d))
    ensures d == 29 ==> DistBase(d) + Pow2(DistBits(d)) == 32769
  {
    DistanceBits(d);
    DistanceStep(d);
    hide DistBits, DistBase, Pow2;
    PowersBelow(DistBits(d));
  }

  lemma DistanceBits(d: nat)
    requires d < 30
    ensures DistBits(d) == (if d < 4 then 0 else d / 2 - 1) && DistBase(0) == 1
  {}

  lemma DistanceStep(d: nat)
    requires d < 30
    ensures DistBase(d) + POWERS[DistBits(d)] == if d == 29 then 32769 else DistBase(d + 1)
  {
    hide DistBase, DistBits;
    if d < 15 {
      DistanceStepLow(d);
    } else {
      DistanceStepHigh(d);
    }
  }

  lemma DistanceStepLow(d: nat)
    requires d < 15
    ensures DistBase(d) + POWERS[DistBits(d)] == DistBase(d + 1)
  {}

  lemma DistanceStepHigh(d: nat)
    requires 15 <= d < 30
    ensures DistBase(d) + POWERS[DistBits(d)] == if d == 29 then 32769 else DistBase(d + 1)
  {}

  lemma PowersBelow(n: nat)
    requires n <= 13
    ensures Pow2(n) == POWERS[n]
  {
    if n > 0 {
      PowersBelow(n - 1);
    }
  }

  lemma {:induction false} LengthsRise(l: nat, m: nat)
    requires l < m < 28
    ensures LenBase(l) + Pow2(LenBits(l)) <= LenBase(m)
  {
    hide LenBase, LenBits, Pow2;
    LengthTable(m - 1);
    if l < m - 1 {
      LengthsRise(l, m - 1);
    }
  }

  lemma {:induction false} DistancesRise(d: nat, e: nat)
    requires d < e < 30
    ensures DistBase(d) + Pow2(DistBits(d)) <= DistBase(e)
  {
    hide DistBase, DistBits, Pow2;
    DistTable(e - 1);
    if d < e - 1 {
      DistancesRise(d, e - 1);
    }
  }

  lemma {:induction false} FindLength(n: nat, l: nat) returns (t: Token)
    requires l < 28 && 3 <= n < LenBase(l) + Pow2(LenBits(l))
    ensures t.Match? && t.len <= l && t.lenExtra < Pow2(LenBits(t.len)) && MatchLength(t) == n
  {
    hide LenBase, LenBits, Pow2;
    if n < LenBase(l) {
      LengthTable(0);
      LengthTable(l - 1);
      t := FindLength(n, l - 1);
    } else {
      t := Match(l, n - LenBase(l), 0, 0);
    }
  }

  lemma {:induction false} FindDistance(n: nat, d: nat) returns (t: Token)
    requires d < 30 && 1 <= n < DistBase(d) + Pow2(DistBits(d))
    ensures t.Match? && t.dist <= d && t.distExtra < Pow2(DistBits(t.dist)) && MatchDist(t) == n
  {
    hide DistBase, DistBits, Pow2;
    if n < DistBase(d) {
      DistTable(0);
      DistTable(d - 1);
      t := FindDistance(n, d - 1);
    } else {
      t := Match(0, 0, d, n - DistBase(d));
    }
  }

  /** Every length from 3 to 258 can be written, and 258 by a symbol of its own, 285. */
  lemma EveryLength(n: nat) returns (t: Token)
    requires 3 <= n <= 258
    ensures t.Match? && t.len < 29 && t.lenExtra < Pow2(LenBits(t.len)) && MatchLength(t) == n
    ensures n == 258 ==> t.len == 285 - 257 && t.lenExtra == 0
  {
    hide LenBase, LenBits, Pow2;
    LengthTable(27);
    if n == 258 {
      t := Match(28, 0, 0, 0);
      assert Pow2(0) == 1 by { PowersBelow(0); }
    } else {
      t := FindLength(n, 27);
    }
  }

  /** Below 258 there is only one way to write a length. */
  lemma OneLength(t: Token, t': Token)
    requires t.Match? && t.len < 28 && t.lenExtra < Pow2(LenBits(t.len))
    requires t'.Match? && t'.len < 28 && t'.lenExtra < Pow2(LenBits(t'.len))
    requires MatchLength(t) == MatchLength(t')
    ensures t.len == t'.len && t.lenExtra == t'.lenExtra
  {
    hide LenBase, LenBits, Pow2;
    if t.len < t'.len {
      LengthsRise(t.len, t'.len);
    } else if t'.len < t.len {
      LengthsRise(t'.len, t.len);
    }
  }

  /** Every distance from 1 to 32768 can be written. */
  lemma EveryDistance(n: nat) returns (t: Token)
    requires 1 <= n <= 32768
    ensures t.Match? && t.dist < 30 && t.distExtra < Pow2(DistBits(t.dist)) && MatchDist(t) == n
  {
    hide DistBase, DistBits, Pow2;
    DistTable(29);
    t := FindDistance(n, 29);
  }

  /** There is only one way to write a distance. */
  lemma OneDistance(t: Token, t': Token)
    requires t.Match? && t.dist < 30 && t.distExtra < Pow2(DistBits(t.dist))
    requires t'.Match? && t'.dist < 30 && t'.distExtra < Pow2(DistBits(t'.dist))
    requires MatchDist(t) == MatchDist(t')
    ensures t.dist == t'.dist && t.distExtra == t'.distExtra
  {
    hide DistBase, DistBits, Pow2;
    if t.dist < t'.dist {
      DistancesRise(t.dist, t'.dist);
    } else if t'.dist < t.dist {
      DistancesRise(t'.dist, t.dist);
    }
  }

  // ----- runs of code lengths -----

  /** The extra field of an instruction fits its bits. */
  predicate ExtraFits(op: LenOp) {
    OpExtra(op) < Pow2(OpExtraBits(op))
  }

  /** The extra fields have two, three and seven bits, after symbols 16, 17 and 18. */
  lemma ExtraRanges(op: LenOp)
    ensures op.CopyPrev? ==> OpSymbol(op) == 16 && (ExtraFits(op) <==> op.extra < 4)
    ensures op.Zeros? ==> OpSymbol(op) == 17 && (ExtraFits(op) <==> op.extra < 8)
    ensures op.MoreZeros? ==> OpSymbol(op) == 18 && (ExtraFits(op) <==> op.extra < 128)
    ensures op.Len? ==> OpSymbol(op) == op.n && ExtraFits(op)
  {
    PowersBelow(0);
    PowersBelow(2);
    PowersBelow(3);
    PowersBelow(7);
  }

  /** A run of `n` zeros is written by exactly one instruction: 17 for 3 to 10 of them, 18 for 11 to 138. */
  lemma ZeroRuns(n: nat, op: LenOp, acc: seq<nat>)
    requires op.Zeros? || op.MoreZeros?
    ensures OpLengths(op, acc) == Repeat(0, |OpLengths(op, acc)|)
    ensures ExtraFits(op) && |OpLengths(op, acc)| == n <==>
            (3 <= n <= 10 && op == Zeros(n - 3)) || (11 <= n <= 138 && op == MoreZeros(n - 11))
  {
    ExtraRanges(op);
  }

  /** The last length is repeated 3 to 6 times by 16, each number of times by one instruction. */
  lemma PreviousRuns(n: nat, op: LenOp, acc: seq<nat>)
    requires op.CopyPrev? && acc != []
    ensures OpLengths(op, acc) == Repeat(acc[|acc| - 1], |OpLengths(op, acc)|)
    ensures ExtraFits(op) && |OpLengths(op, acc)| == n <==> 3 <= n <= 6 && op == CopyPrev(n - 3)
  {
    ExtraRanges(op);
  }

  /** A length by itself stands for itself. */
  lemma SingleLength(n: nat, acc: seq<nat>)
    ensures OpLengths(Len(n), acc) == [n]
  {}

  // ----- dynamic headers -----

  /** After 16, 17, 18 and 0 the code length symbols go outwards from 8: 8, 7, 9, 6, ... 1, 15. */
  lemma SendingOrder(i: nat)
    requires i < 19
    ensures i < 3 ==> Order(i) == 16 + i
    ensures i == 3 ==> Order(i) == 0
    ensures i >= 4 && i % 2 == 0 ==> Order(i) == 8 + (i - 4) / 2
    ensures i >= 5 && i % 2 == 1 ==> Order(i) == 7 - (i - 5) / 2
  {}

  lemma OrderDistinct(i: nat, j: nat)
    requires i < j < 19
    ensures Order(i) != Order(j)
  {
    hide Order;
    SendingOrder(i);
    SendingOrder(j);
  }

  lemma {:induction false} SentLengths(clens: seq<nat>, n: nat, i: nat)
    requires i < n <= |clens| && n <= 19
    ensures ClLengths(clens, n)[Order(i)] == clens[i]
  {
    hide Order;
    if i < n - 1 {
      OrderDistinct(i, n - 1);
      SentLengths(clens, n - 1, i);
    }
  }

  lemma {:induction false} UnsentLengths(clens: seq<nat>, n: nat, i: nat)
    requires n <= |clens| && n <= i < 19
    ensures ClLengths(clens, n)[Order(i)] == 0
  {
    hide Order;
    if n > 0 {
      OrderDistinct(n - 1, i);
      UnsentLengths(clens, n - 1, i);
    }
  }

  lemma {:induction false} ThreeBitFields(b: seq<Bit>, p: nat, n: nat, i: nat)
    requires i < n
    ensures ReadClens(b, p, n)[i] == Val(b, p + 3 * i, 3)
    decreases n
  {
    hide Val;
    if i > 0 {
      ThreeBitFields(b, p + 3, n - 1, i - 1);
    }
  }

  /** Where the fields of a dynamic header stand, and what they mean. */
  lemma HeaderFields(b: seq<Bit>, p: nat, h: Header)
    requires h.Valid() && At(b, p, h.ToBits())
    ensures h.hlit == 257 + Val(b, p, 5) && h.hdist == 1 + Val(b, p + 5, 5) && |h.clens| == 4 + Val(b, p + 10, 4)
    ensures forall i: nat | i < 19 ::
              h.Cl()[Order(i)] == if i < 4 + Val(b, p + 10, 4) then Val(b, p + 14 + 3 * i, 3) else 0
    ensures At(b, p + 14 + 3 * |h.clens|, OpsBits(h.Cl(), h.ops, [], h.hlit + h.hdist))
    ensures |h.LitLengths()| == h.hlit && |h.DistLengths()| == h.hdist && h.Lengths() == h.LitLengths() + h.DistLengths()
  {
    hide At, Val, LsbBits, Usable, ClLengths, Order, Header.FrontBits, ValidOps, ApplyOps, OpsBits, ReadClens;
    AtConcat(b, p, h.FrontBits(), OpsBits(h.Cl(), h.ops, [], h.Total()));
    FrontComplete(b, p, h);
    forall i: nat | i < 19
      ensures h.Cl()[Order(i)] == if i < |h.clens| then Val(b, p + 14 + 3 * i, 3) else 0
    {
      if i < |h.clens| {
        SentLengths(h.clens, |h.clens|, i);
        ThreeBitFields(b, p + 14, |h.clens|, i);
      } else {
        UnsentLengths(h.clens, |h.clens|, i);
      }
    }
  }

  /** The lengths of a header are those of its instructions, one after the other. */
  lemma LengthsGrow(cl: seq<nat>, ops: seq<LenOp>, acc: seq<nat>, total: nat)
    requires ValidOps(cl, ops, acc, total)
    ensures ops == [] ==> ApplyOps(cl, ops, acc, total) == acc
    ensures ops != [] ==>
              ApplyOps(cl, ops, acc, total) == ApplyOps(cl, ops[1..], acc + OpLengths(ops[0], acc), total)
  {}

  // ----- codes -----

  /** The example of section 3.2.2: lengths (3, 3, 3, 3, 3, 2, 4, 4) for the symbols A to H. */
  const EXAMPLE: seq<nat> := [3, 3, 3, 3, 3, 2, 4, 4]

  lemma ExampleCounts(n: nat)
    requires n <= 8
    ensures Cnt(EXAMPLE, n, 1) == 0 && Cnt(EXAMPLE, n, 2) == (if n < 6 then 0 else 1)
    ensures Cnt(EXAMPLE, n, 3) == (if n < 5 then n else 5) && Cnt(EXAMPLE, n, 4) == (if n < 7 then 0 else n - 6)
  {
    if n > 0 {
      ExampleCounts(n - 1);
    }
  }

  lemma ExampleCodes()
    ensures Code(EXAMPLE, 0) == [0, 1, 0] && Code(EXAMPLE, 1) == [0, 1, 1] && Code(EXAMPLE, 2) == [1, 0, 0]
    ensures Code(EXAMPLE, 3) == [1, 0, 1] && Code(EXAMPLE, 4) == [1, 1, 0] && Code(EXAMPLE, 5) == [0, 0]
    ensures Code(EXAMPLE, 6) == [1, 1, 1, 0] && Code(EXAMPLE, 7) == [1, 1, 1, 1]
  {
    hide CodeValue, MsbBits;
    ExampleValues();
    ThreeBits();
    FourBits();
  }

  lemma ExampleValues()
    ensures forall s | 0 <= s < 8 :: CodeValue(EXAMPLE, s) == [2, 3, 4, 5, 6, 0, 14, 15][s]
  {
    forall n | 0 <= n <= 8
      ensures Cnt(EXAMPLE, n, 1) == 0 && Cnt(EXAMPLE, n, 2) == (if n < 6 then 0 else 1)
      ensures Cnt(EXAMPLE, n, 3) == (if n < 5 then n else 5) && Cnt(EXAMPLE, n, 4) == (if n < 7 then 0 else n - 6)
    {
      ExampleCounts(n);
    }
    hide Cnt;
    assert First(EXAMPLE, 1) == 0;
    assert First(EXAMPLE, 2) == 0;
    assert First(EXAMPLE, 3) == 2;
    assert First(EXAMPLE, 4) == 14;
  }

  lemma ThreeBits()
    ensures MsbBits(2, 3) == [0, 1, 0] && MsbBits(3, 3) == [0, 1, 1] && MsbBits(4, 3) == [1, 0, 0]
    ensures MsbBits(5, 3) == [1, 0, 1] && MsbBits(6, 3) == [1, 1, 0] && MsbBits(0, 2) == [0, 0]
  {}

  lemma FourBits()
    ensures MsbBits(14, 4) == [1, 1, 1, 0] && MsbBits(15, 4) == [1, 1, 1, 1]
  {}

  /** The fixed codes of section 3.2.6, as its table gives them. */
  lemma FixedCodes(s: nat)
    requires s < 288
    ensures s < 144 ==> FixedLit()[s] == 8 && CodeValue(FixedLit(), s) == 0x30 + s
    ensures 144 <= s < 256 ==> FixedLit()[s] == 9 && CodeValue(FixedLit(), s) == 0x190 + (s - 144)
    ensures 256 <= s < 280 ==> FixedLit()[s] == 7 && CodeValue(FixedLit(), s) == s - 256
    ensures 280 <= s ==> FixedLit()[s] == 8 && CodeValue(FixedLit(), s) == 0xC0 + (s - 280)
    ensures s < 32 ==> FixedDist()[s] == 5 && CodeValue(FixedDist(), s) == s
  {
    hide First, Cnt;
    FixedFirst(7);
    FixedFirst(8);
    FixedFirst(9);
    FixedCnt(s);
    FixedDistFirst(5);
    if s < 32 {
      FixedDistCnt(s, 5);
    }
  }

  // ----- blocks and tokens -----

  /** The three bits before a block. */
  lemma BlockFields(b: seq<Bit>, p: nat, last: bool, block: Block, out: seq<Byte>)
    requires ValidBlock(block, p, out) && At(b, p, BlockBits(last, block, p, out))
    ensures p + 3 <= |b| && b[p] == (if last then 1 else 0)
    ensures Val(b, p + 1, 2) == match block case Stored(_, _) => 0 case Fixed(_) => 1 case Dynamic(_, _) => 2
  {
    hide ValidBlock, BodyBits, Val, LsbBits, At;
    BlockBitsAt(b, last, block, p, out);
  }

  lemma MatchParts(b: seq<Bit>, p: nat, u: seq<Bit>, v: seq<Bit>, w: seq<Bit>, x: seq<Bit>, m: nat, n: nat, k: nat)
    requires At(b, p, u + (v + (w + x))) && |u| == m && |v| == n && |w| == k
    ensures At(b, p, u) && At(b, p + m, v) && At(b, p + m + n, w) && At(b, p + m + n + k, x)
  {
    hide At;
    AtConcat4(b, p, u, v, w, x);
  }

  lemma MatchAt(ll: seq<nat>, dl: seq<nat>, b: seq<Bit>, p: nat, t: Token)
    requires t.Match? && ValidToken(ll, dl, t) && At(b, p, TokenBits(ll, dl, t))
    ensures var q := p + ll[257 + t.len]; var r := q + LenBits(t.len);
            && At(b, p, Code(ll, 257 + t.len)) && At(b, q, LsbBits(t.lenExtra, LenBits(t.len)))
            && At(b, r, Code(dl, t.dist)) && At(b, r + dl[t.dist], LsbBits(t.distExtra, DistBits(t.dist)))
  {
    hide LenBits, DistBits, At, Code, LsbBits, Pow2;
    MatchParts(b, p, Code(ll, 257 + t.len), LsbBits(t.lenExtra, LenBits(t.len)), Code(dl, t.dist),
               LsbBits(t.distExtra, DistBits(t.dist)), ll[257 + t.len], LenBits(t.len), dl[t.dist]);
  }

  /** Where the parts of a match stand: each code is followed by its extra bits, least significant first. */
  lemma MatchFields(ll: seq<nat>, dl: seq<nat>, b: seq<Bit>, p: nat, t: Token)
    requires t.Match? && ValidToken(ll, dl, t) && At(b, p, TokenBits(ll, dl, t))
    ensures var q := p + ll[257 + t.len]; var r := q + LenBits(t.len);
            && SymbolAt(ll, b, p, 257 + t.len) && Val(b, q, LenBits(t.len)) == t.lenExtra
            && SymbolAt(dl, b, r, t.dist) && Val(b, r + dl[t.dist], DistBits(t.dist)) == t.distExtra
  {
    hide LenBits, DistBits, At, Code, LsbBits, Val, Pow2, TokenBits;
    MatchAt(ll, dl, b, p, t);
    var q := p + ll[257 + t.len];
    var r := q + LenBits(t.len);
    FieldComplete(b, q, t.lenExtra, LenBits(t.len));
    FieldComplete(b, r + dl[t.dist], t.distExtra, DistBits(t.dist));
  }

  /** The codes of a block in the stream: one for each token, and then the code of 256. */
  lemma {:induction false} TokensEnd(ll: seq<nat>, dl: seq<nat>, b: seq<Bit>, p: nat, ts: seq<Token>, out: seq<Byte>)
    requires HasCode(ll, 256) && ValidTokens(ll, dl, ts, out) && At(b, p, TokensBits(ll, dl, ts, out))
    ensures var end := p + |TokensBits(ll, dl, ts, out)|;
            ll[256] <= end - p && SymbolAt(ll, b, end - ll[256], 256)
    decreases |ts|
  {
    hide TokenBits, Emit, Code, ValidToken, At;
    if ts != [] {
      var out' := Emit(ts[0], out);
      AtConcat(b, p, TokenBits(ll, dl, ts[0]), TokensBits(ll, dl, ts[1..], out'));
      TokensEnd(ll, dl, b, p + |TokenBits(ll, dl, ts[0])|, ts[1..], out');
    }
  }

  /** A literal stands for its byte, under the code of that number. */
  lemma LiteralFields(ll: seq<nat>, dl: seq<nat>, b: seq<Bit>, p: nat, x: Byte, out: seq<Byte>)
    requires ValidToken(ll, dl, Literal(x)) && At(b, p, TokenBits(ll, dl, Literal(x)))
    ensures SymbolAt(ll, b, p, x) && Emit(Literal(x), out) == out + [x]
  {}

  // ----- a stored stream, byte for byte -----

  /** A last stored block: the header byte, the length, its complement, both low byte first, and the data. */
  function StoredBytes(data: seq<Byte>): seq<Byte>
    requires |data| < 65536
  {
    StoredFront(|data| % 256, |data| / 256) + data
  }

  function StoredFront(low: Byte, high: Byte): seq<Byte> {
    [1, low, high, 255 - low, 255 - high]
  }

  lemma {:induction false} LsbJoin(low: nat, high: nat, m: nat, n: nat)
    requires low < Pow2(m)
    ensures LsbBits(low + Pow2(m) * high, m + n) == LsbBits(low, m) + LsbBits(high, n)
  {
    if m == 0 {
      assert [] + LsbBits(high, n) == LsbBits(high, n);
    } else {
      var h := Pow2(m - 1) * high;
      MulAssoc(2, Pow2(m - 1), high);
      LsbJoin(low / 2, high, m - 1, n);
      assert (low + 2 * h) % 2 == low % 2 && (low + 2 * h) / 2 == low / 2 + h;
      assert [low % 2] + (LsbBits(low / 2, m - 1) + LsbBits(high, n)) == ([low % 2] + LsbBits(low / 2, m - 1)) + LsbBits(high, n);
    }
  }

  /** Sixteen bits are two bytes, the low one first. */
  lemma TwoBytes(low: Byte, high: Byte, n: nat)
    requires n == low + 256 * high
    ensures LsbBits(n, 16) == LsbBits(low, 8) + LsbBits(high, 8)
  {
    hide LsbBits;
    assert Pow2(8) == 256 by { PowersBelow(8); }
    LsbJoin(low, high, 8, 8);
  }

  lemma FirstByte(x: Byte, rest: seq<Byte>)
    ensures BitsOf([x] + rest) == LsbBits(x, 8) + BitsOf(rest)
  {
    hide BitsOf, LsbBits;
    ByteBitsSplit([x] + rest);
    assert ([x] + rest)[1..] == rest;
  }

  lemma HeaderByte()
    ensures LsbBits(1, 8) == [1] + (LsbBits(0, 2) + [0, 0, 0, 0, 0])
  {}

  lemma StoredBits(low: Byte, high: Byte, n: nat, data: seq<Byte>)
    requires n == low + 256 * high
    ensures BitsOf(StoredFront(low, high) + data) ==
            LsbBits(1, 8) + (LsbBits(n, 16) + (LsbBits(65535 - n, 16) + BitsOf(data)))
  {
    hide BitsOf, LsbBits;
    var low', high' := 255 - low, 255 - high;
    TwoBytes(low, high, n);
    TwoBytes(low', high', 65535 - n);
    var t4: seq<Byte> := [high'] + data;
    var t3: seq<Byte> := [low'] + t4;
    var t2: seq<Byte> := [high] + t3;
    var t1: seq<Byte> := [low] + t2;
    FirstByte(high', data);
    FirstByte(low', t4);
    FirstByte(high, t3);
    FirstByte(low, t2);
    FirstByte(1, t1);
    assert StoredFront(low, high) + data == [1] + t1;
    JoinBits(LsbBits(low, 8), LsbBits(high, 8), LsbBits(low', 8), LsbBits(high', 8), BitsOf(data));
  }

  lemma JoinBits(a: seq<Bit>, b: seq<Bit>, c: seq<Bit>, d: seq<Bit>, e: seq<Bit>)
    ensures a + (b + (c + (d + e))) == (a + b) + ((c + d) + e)
  {}

  /** Bytes of any kind, fewer than 65536, are a DEFLATE stream behind those five bytes. */
  lemma StoredStream(data: seq<Byte>)
    requires |data| < 65536
    ensures var s := Last(Stored([0, 0, 0, 0, 0], data)); Encodes(StoredBytes(data), s) && Expand(s, 0, []) == data
  {
    hide BitsOf, LsbBits, StoredFront;
    var pad: seq<Bit> := [0, 0, 0, 0, 0];
    var block := Stored(pad, data);
    var rest := LsbBits(|data|, 16) + (LsbBits(65535 - |data|, 16) + BitsOf(data));
    StoredBits(|data| % 256, |data| / 256, |data|, data);
    HeaderByte();
    assert BodyBits(block, 0, []) == pad + rest;
    JoinHeader([1], LsbBits(0, 2), pad, rest);
    assert BitsOf(StoredBytes(data)) == BlockBits(true, block, 0, []);
    assert [] + data == data;
  }

  lemma JoinHeader(a: seq<Bit>, b: seq<Bit>, c: seq<Bit>, d: seq<Bit>)
    ensures (a + (b + c)) + d == a + (b + (c + d))
  {}
}
