/** The inverse theorems for headers, blocks and whole streams. */
module Streams {
  import opened Bits
  import opened Canonical
  import opened Deflate
  import opened Decoder
  import opened Inverse

  lemma UsableGood(ls: seq<nat>)
    requires ValidLengths(ls) && Usable(ls)
    ensures GoodCode(ls)
  {
    UsableFits(ls);
  }

  // ----- headers -----

  lemma {:induction false} ClLengthsSmall(clens: seq<nat>, n: nat)
    requires n <= |clens| && n <= 19 && forall i | 0 <= i < |clens| :: clens[i] < 8
    ensures forall s | 0 <= s < 19 :: ClLengths(clens, n)[s] < 8
  {
    hide Order;
    if n > 0 {
      ClLengthsSmall(clens, n - 1);
    }
  }

  lemma ClGood(clens: seq<nat>)
    requires |clens| <= 19 && (forall i | 0 <= i < |clens| :: clens[i] < 8) && Usable(ClLengths(clens, |clens|))
    ensures GoodCode(ClLengths(clens, |clens|))
  {
    ClLengthsSmall(clens, |clens|);
    UsableGood(ClLengths(clens, |clens|));
  }

  predicate ShortLengths(ls: seq<nat>) {
    forall i | 0 <= i < |ls| :: ls[i] <= 15
  }

  lemma OpShort(op: LenOp, acc: seq<nat>)
    requires ShortLengths(acc) && (op.Len? ==> op.n <= 15) && (op.CopyPrev? ==> acc != [])
    ensures ShortLengths(acc + OpLengths(op, acc))
  {}

  lemma {:induction false} ApplyShort(cl: seq<nat>, ops: seq<LenOp>, acc: seq<nat>, total: nat)
    requires ValidOps(cl, ops, acc, total) && ShortLengths(acc)
    ensures ShortLengths(ApplyOps(cl, ops, acc, total))
    decreases |ops|
  {
    hide OpLengths, HasCode;
    if ops != [] {
      OpShort(ops[0], acc);
      ApplyShort(cl, ops[1..], acc + OpLengths(ops[0], acc), total);
    }
  }

  /** The codes a valid header defines can be decoded. */
  lemma HeaderGood(h: Header)
    requires h.Valid()
    ensures GoodCode(h.Cl()) && GoodCode(h.LitLengths()) && GoodCode(h.DistLengths())
    ensures HasCode(h.LitLengths(), 256)
  {
    hide ClLengths, ValidOps, ApplyOps, GoodCode, Usable;
    ClGood(h.clens);
    ApplyShort(h.Cl(), h.ops, [], h.Total());
    UsableGood(h.LitLengths());
    UsableGood(h.DistLengths());
  }

  lemma FrontSound(b: seq<Bit>, p: nat, h: Header)
    requires h.ValidFront() && p + 14 + 3 * |h.clens| <= |b|
    requires h.hlit == Val(b, p, 5) + 257 && h.hdist == Val(b, p + 5, 5) + 1 && |h.clens| == Val(b, p + 10, 4) + 4
    requires h.clens == ReadClens(b, p + 14, |h.clens|)
    ensures At(b, p, h.FrontBits()) && |h.FrontBits()| == 14 + 3 * |h.clens|
  {
    hide At, Val, LsbBits, Usable, ClLengths;
    FieldSound(b, p, 5);
    FieldSound(b, p + 5, 5);
    FieldSound(b, p + 10, 4);
    assert h.clens[0..] == h.clens;
    ClensSound(b, p + 14, h.clens, 0);
    ClensLength(h.clens, 0);
    AtConcat4(b, p, LsbBits(h.hlit - 257, 5), LsbBits(h.hdist - 1, 5), LsbBits(|h.clens| - 4, 4), ClensBits(h.clens, 0));
  }

  lemma FrontComplete(b: seq<Bit>, p: nat, h: Header)
    requires h.ValidFront() && At(b, p, h.FrontBits())
    ensures p + 14 + 3 * |h.clens| <= |b| && |h.FrontBits()| == 14 + 3 * |h.clens|
    ensures h.hlit == Val(b, p, 5) + 257 && h.hdist == Val(b, p + 5, 5) + 1 && |h.clens| == Val(b, p + 10, 4) + 4
    ensures h.clens == ReadClens(b, p + 14, |h.clens|)
  {
    hide At, Val, LsbBits, Usable, ClLengths;
    AtConcat4(b, p, LsbBits(h.hlit - 257, 5), LsbBits(h.hdist - 1, 5), LsbBits(|h.clens| - 4, 4), ClensBits(h.clens, 0));
    assert Pow2(5) == 32 && Pow2(4) == 16;
    FieldComplete(b, p, h.hlit - 257, 5);
    FieldComplete(b, p + 5, h.hdist - 1, 5);
    FieldComplete(b, p + 10, |h.clens| - 4, 4);
    assert h.clens[0..] == h.clens;
    ClensComplete(b, p + 14, h.clens, 0);
    ClensLength(h.clens, 0);
  }

  lemma TreesSound(b: seq<Bit>, p: nat) returns (h: Header)
    requires ReadTrees(b, p).Trees?
    ensures h.Valid() && At(b, p, h.ToBits())
    ensures ReadTrees(b, p) == Trees(h.LitLengths(), h.DistLengths(), p + |h.ToBits()|)
  {
    hide At, Val, LsbBits, Usable, ClLengths, Header.FrontBits, GoodCode, ReadOps, ValidOps, ApplyOps, OpsBits, ReadClens;
    var hlit, hdist, hclen := Val(b, p, 5) + 257, Val(b, p + 5, 5) + 1, Val(b, p + 10, 4) + 4;
    var clens := ReadClens(b, p + 14, hclen);
    var cl := ClLengths(clens, hclen);
    var q := p + 14 + 3 * hclen;
    assert clens[0..] == clens;
    ClensSound(b, p + 14, clens, 0);
    ClGood(clens);
    var ops := OpsSound(cl, b, q, [], hlit + hdist);
    h := Header(hlit, hdist, clens, ops);
    FrontSound(b, p, h);
    AtConcat(b, p, h.FrontBits(), OpsBits(cl, ops, [], hlit + hdist));
  }

  lemma TreesComplete(b: seq<Bit>, p: nat, h: Header)
    requires h.Valid() && At(b, p, h.ToBits())
    ensures ReadTrees(b, p) == Trees(h.LitLengths(), h.DistLengths(), p + |h.ToBits()|)
  {
    hide At, Val, LsbBits, Usable, ClLengths, Header.FrontBits, GoodCode, ReadOps, ValidOps, ApplyOps, OpsBits, ReadClens;
    AtConcat(b, p, h.FrontBits(), OpsBits(h.Cl(), h.ops, [], h.Total()));
    FrontComplete(b, p, h);
    HeaderGood(h);
    OpsComplete(h.Cl(), b, p + 14 + 3 * |h.clens|, [], h.Total(), h.ops);
  }

  // ----- stored blocks -----

  lemma {:induction false} BytesSound(b: seq<Bit>, p: nat, n: nat)
    requires p + 8 * n <= |b|
    ensures At(b, p, BitsOf(BytesAt(b, p, n)))
    decreases n
  {
    if n > 0 {
      var data := BytesAt(b, p, n);
      var rest := BytesAt(b, p + 8, n - 1);
      BytesSound(b, p + 8, n - 1);
      ByteBitsSplit(data);
      FieldSound(b, p, 8);
      AtConcat(b, p, LsbBits(data[0], 8), BitsOf(rest));
    } else {
      assert b[p..p] == [];
    }
  }

  lemma {:induction false} LsbBitAt(x: nat, n: nat, i: nat)
    requires i < n
    ensures LsbBits(x, n)[i] == (x / Pow2(i)) % 2
    decreases n
  {
    if i > 0 {
      LsbBitAt(x / 2, n - 1, i - 1);
      DivDiv(x, 2, Pow2(i - 1));
    }
  }

  lemma ByteBitsSplit(data: seq<Byte>)
    requires data != []
    ensures BitsOf(data) == LsbBits(data[0], 8) + BitsOf(data[1..])
  {
    hide Pow2, LsbBits;
    var w := LsbBits(data[0], 8) + BitsOf(data[1..]);
    forall j | 0 <= j < 8 * |data|
      ensures BitsOf(data)[j] == w[j]
    {
      if j < 8 {
        LsbBitAt(data[0], 8, j);
      } else {
        assert (j - 8) / 8 == j / 8 - 1 && (j - 8) % 8 == j % 8;
        assert data[1..][j / 8 - 1] == data[j / 8];
      }
    }
  }

  lemma {:induction false} BytesComplete(b: seq<Bit>, p: nat, data: seq<Byte>)
    requires At(b, p, BitsOf(data))
    ensures p + 8 * |data| <= |b| && BytesAt(b, p, |data|) == data
    decreases |data|
  {
    if data != [] {
      ByteBitsSplit(data);
      AtConcat(b, p, LsbBits(data[0], 8), BitsOf(data[1..]));
      assert Pow2(8) == 256;
      FieldComplete(b, p, data[0], 8);
      BytesComplete(b, p + 8, data[1..]);
    }
  }

  lemma StoredSound(b: seq<Bit>, p: nat, out: seq<Byte>) returns (pad: seq<Bit>, data: seq<Byte>)
    requires ReadStored(b, p + 3, out).Done?
    ensures ValidBlock(Stored(pad, data), p, out) && At(b, p + 3, BodyBits(Stored(pad, data), p, out))
    ensures ReadStored(b, p + 3, out) == Done(out + data, p + 3 + |BodyBits(Stored(pad, data), p, out)|)
  {
    hide Val, LsbBits, BitsOf, BytesAt, At;
    var q := Aligned(p + 3);
    pad := b[p + 3..q];
    AtSlice(b, p + 3, q);
    data := BytesAt(b, q + 32, Val(b, q, 16));
    FieldSound(b, q, 16);
    FieldSound(b, q + 16, 16);
    BytesSound(b, q + 32, |data|);
    Pow2Of16();
    AtConcat4(b, p + 3, pad, LsbBits(|data|, 16), LsbBits(65535 - |data|, 16), BitsOf(data));
  }

  lemma AlignedIs(p: nat, n: nat)
    requires n < 8 && (p + n) % 8 == 0
    ensures Aligned(p) == p + n
  {}

  lemma StoredComplete(b: seq<Bit>, p: nat, out: seq<Byte>, pad: seq<Bit>, data: seq<Byte>)
    requires ValidBlock(Stored(pad, data), p, out) && At(b, p + 3, BodyBits(Stored(pad, data), p, out))
    ensures ReadStored(b, p + 3, out) == Done(out + data, p + 3 + |BodyBits(Stored(pad, data), p, out)|)
  {
    hide Val, LsbBits, BitsOf, BytesAt, At;
    AtConcat4(b, p + 3, pad, LsbBits(|data|, 16), LsbBits(65535 - |data|, 16), BitsOf(data));
    AlignedIs(p + 3, |pad|);
    var q := p + 3 + |pad|;
    Pow2Of16();
    FieldComplete(b, q, |data|, 16);
    FieldComplete(b, q + 16, 65535 - |data|, 16);
    BytesComplete(b, q + 32, data);
  }

  // ----- blocks -----

  lemma {:induction false} FixedCnt(n: nat)
    requires n <= 288
    ensures Cnt(FixedLit(), n, 7) == if n <= 256 then 0 else if n <= 280 then n - 256 else 24
    ensures Cnt(FixedLit(), n, 8) == if n <= 144 then n else if n <= 280 then 144 else n - 136
    ensures Cnt(FixedLit(), n, 9) == if n <= 144 then 0 else if n <= 256 then n - 144 else 112
  {
    if n > 0 {
      FixedCnt(n - 1);
    }
  }

  lemma {:induction false} FixedCntOther(n: nat, len: nat)
    requires n <= 288 && !(7 <= len <= 9)
    ensures Cnt(FixedLit(), n, len) == 0
  {
    if n > 0 {
      FixedCntOther(n - 1, len);
    }
  }

  lemma FixedCount(len: nat)
    requires len > 0
    ensures LenCount(FixedLit(), len) == if len == 7 then 24 else if len == 8 then 152 else if len == 9 then 112 else 0
  {
    hide Cnt, FixedLit;
    FixedCnt(288);
    if !(7 <= len <= 9) {
      FixedCntOther(288, len);
    }
  }

  lemma {:induction false} FixedFirst(len: nat)
    ensures First(FixedLit(), len) ==
            if len <= 7 then 0 else if len == 8 then 48 else if len == 9 then 400 else Pow2(len)
  {
    hide LenCount, FixedLit;
    if len > 0 {
      FixedFirst(len - 1);
      if len > 1 {
        FixedCount(len - 1);
      } else {
        assert LenCount(FixedLit(), 0) == 0 by { NoCount(FixedLit()); }
      }
      assert Pow2(10) == 1024;
    }
  }

  lemma NoCount(ls: seq<nat>)
    ensures LenCount(ls, 0) == 0
  {}

  lemma {:induction false} FixedDistCnt(n: nat, len: nat)
    requires n <= 32
    ensures Cnt(FixedDist(), n, len) == if len == 5 then n else 0
  {
    if n > 0 {
      FixedDistCnt(n - 1, len);
    }
  }

  lemma {:induction false} FixedDistFirst(len: nat)
    ensures First(FixedDist(), len) == if len <= 5 then 0 else Pow2(len)
  {
    hide FixedDist;
    if len > 0 {
      FixedDistFirst(len - 1);
      FixedDistCnt(32, len - 1);
      assert Pow2(6) == 64;
    }
  }

  /** The fixed codes are decodable. */
  lemma FixedGood()
    ensures GoodCode(FixedLit()) && GoodCode(FixedDist()) && HasCode(FixedLit(), 256)
  {
    hide First, LenCount, Pow2;
    forall len | 0 <= len <= 15
      ensures First(FixedLit(), len) + LenCount(FixedLit(), len) <= Pow2(len)
    {
      FixedFirst(len);
      NoCount(FixedLit());
      if len > 0 { FixedCount(len); }
      SmallPowers();
    }
    forall len | 0 <= len <= 15
      ensures First(FixedDist(), len) + LenCount(FixedDist(), len) <= Pow2(len)
    {
      FixedDistFirst(len);
      NoCount(FixedDist());
      FixedDistLenCount(len);
      SmallPowers();
    }
  }

  lemma FixedDistLenCount(len: nat)
    ensures LenCount(FixedDist(), len) == if len == 5 then 32 else 0
  {
    FixedDistCnt(32, len);
  }

  lemma SmallPowers()
    ensures Pow2(5) == 32 && Pow2(7) == 128 && Pow2(8) == 256 && Pow2(9) == 512
  {}

  /** The body of `block` is written behind its header bits. */
  ghost predicate BodyAt(b: seq<Bit>, block: Block, p: nat, out: seq<Byte>) {
    ValidBlock(block, p, out) && At(b, p + 3, BodyBits(block, p, out))
  }

  ghost function BodyEnd(block: Block, p: nat, out: seq<Byte>): Outcome
    requires ValidBlock(block, p, out)
  {
    Done(ExpandBlock(block, p, out), p + 3 + |BodyBits(block, p, out)|)
  }

  lemma FixedSound(b: seq<Bit>, p: nat, out: seq<Byte>) returns (block: Block)
    requires p + 3 <= |b| && ReadTokens(FixedLit(), FixedDist(), b, p + 3, out).Done?
    ensures block.Fixed? && BodyAt(b, block, p, out)
    ensures ReadTokens(FixedLit(), FixedDist(), b, p + 3, out) == BodyEnd(block, p, out)
  {
    hide FixedLit, FixedDist, GoodCode, ReadTokens, ValidTokens, ExpandTokens, TokensBits, At;
    FixedGood();
    var ts := TokensSound(FixedLit(), FixedDist(), b, p + 3, out);
    block := Fixed(ts);
  }

  lemma DynamicSound(b: seq<Bit>, p: nat, out: seq<Byte>) returns (block: Block)
    requires ReadTrees(b, p + 3).Trees?
    requires var t := ReadTrees(b, p + 3); ReadTokens(t.ll, t.dl, b, t.next, out).Done?
    ensures block.Dynamic? && BodyAt(b, block, p, out)
    ensures var t := ReadTrees(b, p + 3); ReadTokens(t.ll, t.dl, b, t.next, out) == BodyEnd(block, p, out)
  {
    hide GoodCode, ReadTokens, ValidTokens, ExpandTokens, TokensBits, ReadTrees, Header.Valid, Header.ToBits,
      Header.LitLengths, Header.DistLengths, At;
    var t := ReadTrees(b, p + 3);
    var h := TreesSound(b, p + 3);
    HeaderGood(h);
    var ts := TokensSound(t.ll, t.dl, b, t.next, out);
    AtConcat(b, p + 3, h.ToBits(), TokensBits(t.ll, t.dl, ts, out));
    block := Dynamic(h, ts);
  }

  lemma BlockSound(b: seq<Bit>, p: nat, out: seq<Byte>) returns (block: Block)
    requires ReadBlock(b, p, out).Done?
    ensures BodyAt(b, block, p, out) && BlockType(block) == Val(b, p + 1, 2)
    ensures ReadBlock(b, p, out) == BodyEnd(block, p, out)
  {
    hide ReadTokens, ReadTrees, ReadStored, FixedLit, FixedDist, Val;
    var kind := Val(b, p + 1, 2);
    if kind == 0 {
      var pad, data := StoredSound(b, p, out);
      block := Stored(pad, data);
    } else if kind == 1 {
      block := FixedSound(b, p, out);
    } else {
      block := DynamicSound(b, p, out);
    }
  }

  lemma BlockComplete(b: seq<Bit>, p: nat, out: seq<Byte>, block: Block)
    requires p + 3 <= |b| && BodyAt(b, block, p, out) && BlockType(block) == Val(b, p + 1, 2)
    ensures ReadBlock(b, p, out) == BodyEnd(block, p, out)
  {
    hide GoodCode, ReadTokens, ValidTokens, ExpandTokens, TokensBits, ReadTrees, Header.ValidFront, ValidOps, ApplyOps, Header.ToBits,
      Header.LitLengths, Header.DistLengths, At, FixedLit, FixedDist, Val, ReadStored;
    match block
    case Stored(pad, data) =>
      StoredComplete(b, p, out, pad, data);
    case Fixed(ts) =>
      FixedGood();
      TokensComplete(FixedLit(), FixedDist(), b, p + 3, out, ts);
    case Dynamic(h, ts) =>
      AtConcat(b, p + 3, h.ToBits(), TokensBits(h.LitLengths(), h.DistLengths(), ts, out));
      TreesComplete(b, p + 3, h);
      HeaderGood(h);
      TokensComplete(h.LitLengths(), h.DistLengths(), b, p + 3 + |h.ToBits()|, out, ts);
  }

  lemma BlockBitsAt(b: seq<Bit>, last: bool, block: Block, p: nat, out: seq<Byte>)
    requires ValidBlock(block, p, out)
    ensures At(b, p, BlockBits(last, block, p, out)) <==>
            p + 3 <= |b| && b[p] == (if last then 1 else 0) && BlockType(block) == Val(b, p + 1, 2) &&
            BodyAt(b, block, p, out)
    ensures |BlockBits(last, block, p, out)| == 3 + |BodyBits(block, p, out)|
  {
    hide ValidBlock, BodyBits, Val, LsbBits;
    var f: seq<Bit> := [if last then 1 else 0];
    var w := LsbBits(BlockType(block), 2);
    AtConcat(b, p, f, w + BodyBits(block, p, out));
    AtConcat(b, p + 1, w, BodyBits(block, p, out));
    assert Pow2(2) == 4;
    LsbAt(b, p + 1, BlockType(block), 2);
  }

  // ----- streams -----

  /** Whatever the decoder accepts is a valid stream, written at `p`, standing for the bytes it returns. */
  lemma {:induction false} StreamSound(b: seq<Bit>, p: nat, out: seq<Byte>) returns (s: Stream)
    requires p <= |b| && ReadStream(b, p, out).Done?
    ensures ValidStream(s, p, out) && At(b, p, StreamBits(s, p, out))
    ensures ReadStream(b, p, out) == Done(Expand(s, p, out), p + |StreamBits(s, p, out)|)
    decreases |b| - p
  {
    hide ReadBlock, BlockBits, ValidBlock, ExpandBlock, At, BodyBits, Val;
    var block := BlockSound(b, p, out);
    BlockBitsAt(b, b[p] == 1, block, p, out);
    BlockBitsAt(b, false, block, p, out);
    if b[p] == 1 {
      s := Last(block);
    } else {
      var q, out' := NextBlock(block, p, out), ExpandBlock(block, p, out);
      var rest := StreamSound(b, q, out');
      s := More(block, rest);
      AtConcat(b, p, BlockBits(false, block, p, out), StreamBits(rest, q, out'));
    }
  }

  /** The decoder accepts every valid stream written at `p` and returns the bytes it stands for. */
  lemma {:induction false} StreamComplete(b: seq<Bit>, p: nat, out: seq<Byte>, s: Stream)
    requires p <= |b| && ValidStream(s, p, out) && At(b, p, StreamBits(s, p, out))
    ensures ReadStream(b, p, out) == Done(Expand(s, p, out), p + |StreamBits(s, p, out)|)
    decreases s
  {
    hide ReadBlock, BlockBits, ValidBlock, ExpandBlock, At, BodyBits, Val;
    BlockBitsAt(b, s.Last?, s.block, p, out);
    if s.More? {
      var q, out' := NextBlock(s.block, p, out), ExpandBlock(s.block, p, out);
      AtConcat(b, p, BlockBits(false, s.block, p, out), StreamBits(s.rest, q, out'));
      BlockBitsAt(b, false, s.block, p, out);
      BlockComplete(b, p, out, s.block);
      StreamComplete(b, q, out', s.rest);
    } else {
      BlockComplete(b, p, out, s.block);
    }
  }

  /** Two valid streams written at the same place stand for the same bytes and end together. */
  lemma StreamUnique(b: seq<Bit>, p: nat, out: seq<Byte>, s: Stream, s': Stream)
    requires p <= |b|
    requires ValidStream(s, p, out) && At(b, p, StreamBits(s, p, out))
    requires ValidStream(s', p, out) && At(b, p, StreamBits(s', p, out))
    ensures Expand(s, p, out) == Expand(s', p, out)
    ensures |StreamBits(s, p, out)| == |StreamBits(s', p, out)|
  {
    StreamComplete(b, p, out, s);
    StreamComplete(b, p, out, s');
  }

  /** `s` is the stream the source begins with. */
  ghost predicate Encodes(source: seq<Byte>, s: Stream) {
    ValidStream(s, 0, []) && At(BitsOf(source), 0, StreamBits(s, 0, []))
  }
}
