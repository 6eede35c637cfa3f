/** What upng.c asks of a stream beyond its being valid, and zero-padded code lengths. */
module UpngSpec {
  import opened Bits
  import opened Canonical
  import opened Deflate
  import opened Decoder
  import opened Inverse
  import opened Streams
  import opened TinfTree

  // ----- room in the output buffer -----

  /** A literal needs a free byte; a match must end strictly before the end of the buffer. */
  predicate Roomy(t: Token, produced: nat, size: nat)
    requires InWindow(t, produced)
  {
    if t.Literal? then produced < size else produced + MatchLength(t) < size
  }

  ghost predicate TokensFit(ll: seq<nat>, dl: seq<nat>, b: seq<Bit>, p: nat, out: seq<Byte>, size: nat)
    requires p <= |b|
    decreases |b| - p
  {
    match ReadToken(ll, dl, b, p)
    case BadToken => true
    case EndOfBlock(_) => true
    case Tok(t, q) =>
      InWindow(t, |out|) ==> Roomy(t, |out|, size) && TokensFit(ll, dl, b, q, Emit(t, out), size)
  }

  ghost predicate BlockFits(b: seq<Bit>, p: nat, out: seq<Byte>, size: nat)
    requires p + 3 <= |b|
  {
    var kind := Val(b, p + 1, 2);
    if kind == 0 then
      var r := ReadStored(b, p + 3, out);
      r.Done? ==> |r.out| < size
    else if kind == 1 then TokensFit(FixedLit(), FixedDist(), b, p + 3, out, size)
    else if kind == 2 then
      var t := ReadTrees(b, p + 3);
      t.Trees? ==> TokensFit(t.ll, t.dl, b, t.next, out, size)
    else true
  }

  ghost predicate StreamFits(b: seq<Bit>, p: nat, out: seq<Byte>, size: nat)
    requires p <= |b|
    decreases |b| - p
  {
    p + 3 <= |b| ==>
      BlockFits(b, p, out, size) &&
      var r := ReadBlock(b, p, out);
      r.Done? && b[p] != 1 ==> StreamFits(b, r.next, r.out, size)
  }

  lemma {:induction false} TokensFitBound(ll: seq<nat>, dl: seq<nat>, b: seq<Bit>, p: nat, out: seq<Byte>, size: nat)
    requires p <= |b| && ReadTokens(ll, dl, b, p, out).Done?
    ensures |out| <= |ReadTokens(ll, dl, b, p, out).out|
    ensures |ReadTokens(ll, dl, b, p, out).out| < size ==> TokensFit(ll, dl, b, p, out, size)
    ensures TokensFit(ll, dl, b, p, out, size) && |out| <= size ==> |ReadTokens(ll, dl, b, p, out).out| <= size
    decreases |b| - p
  {
    hide Copy;
    var r := ReadToken(ll, dl, b, p);
    if r.Tok? {
      TokensFitBound(ll, dl, b, r.next, Emit(r.token, out), size);
    }
  }

  lemma BlockFitBound(b: seq<Bit>, p: nat, out: seq<Byte>, size: nat)
    requires p + 3 <= |b| && ReadBlock(b, p, out).Done?
    ensures |out| <= |ReadBlock(b, p, out).out|
    ensures |ReadBlock(b, p, out).out| < size ==> BlockFits(b, p, out, size)
    ensures BlockFits(b, p, out, size) && |out| <= size ==> |ReadBlock(b, p, out).out| <= size
  {
    hide TokensFit, ReadTokens, ReadTrees, Val, FixedLit, FixedDist;
    var kind := Val(b, p + 1, 2);
    if kind == 1 {
      TokensFitBound(FixedLit(), FixedDist(), b, p + 3, out, size);
    } else if kind == 2 {
      var t := ReadTrees(b, p + 3);
      TokensFitBound(t.ll, t.dl, b, t.next, out, size);
    }
  }

  /**
   * Every stream whose output is shorter than the buffer fits, and nothing longer does.  When the output
   * fills the buffer exactly, it depends on whether a match or a stored block ends it.
   */
  lemma {:induction false} StreamFitBound(b: seq<Bit>, p: nat, out: seq<Byte>, size: nat)
    requires p <= |b| && ReadStream(b, p, out).Done?
    ensures |out| <= |ReadStream(b, p, out).out|
    ensures |ReadStream(b, p, out).out| < size ==> StreamFits(b, p, out, size)
    ensures StreamFits(b, p, out, size) && |out| <= size ==> |ReadStream(b, p, out).out| <= size
    decreases |b| - p
  {
    hide ReadBlock, BlockFits;
    var r := ReadBlock(b, p, out);
    BlockFitBound(b, p, out, size);
    if b[p] != 1 {
      StreamFitBound(b, r.next, r.out, size);
    }
  }

  // ----- the same, seen in the stream -----

  predicate TokensRoomy(ll: seq<nat>, dl: seq<nat>, ts: seq<Token>, out: seq<Byte>, size: nat)
    requires ValidTokens(ll, dl, ts, out)
  {
    ts == [] || (Roomy(ts[0], |out|, size) && TokensRoomy(ll, dl, ts[1..], Emit(ts[0], out), size))
  }

  predicate BlockRoomy(block: Block, p: nat, out: seq<Byte>, size: nat)
    requires ValidBlock(block, p, out)
  {
    match block
    case Stored(_, data) => |out| + |data| < size
    case Fixed(ts) => TokensRoomy(FixedLit(), FixedDist(), ts, out, size)
    case Dynamic(h, ts) => TokensRoomy(h.LitLengths(), h.DistLengths(), ts, out, size)
  }

  predicate StreamRoomy(s: Stream, p: nat, out: seq<Byte>, size: nat)
    requires ValidStream(s, p, out)
  {
    && BlockRoomy(s.block, p, out, size)
    && (s.More? ==> StreamRoomy(s.rest, NextBlock(s.block, p, out), ExpandBlock(s.block, p, out), size))
  }

  lemma {:induction false} TokensFitIs(ll: seq<nat>, dl: seq<nat>, b: seq<Bit>, p: nat, out: seq<Byte>, ts: seq<Token>, size: nat)
    requires GoodCode(ll) && GoodCode(dl) && p <= |b|
    requires HasCode(ll, 256) && ValidTokens(ll, dl, ts, out)
    requires At(b, p, TokensBits(ll, dl, ts, out))
    ensures TokensFit(ll, dl, b, p, out, size) == TokensRoomy(ll, dl, ts, out, size)
    decreases |ts|
  {
    hide LenBits, DistBits, GoodCode, Code, At, TokenBits, ValidToken, Copy;
    if ts == [] {
      EndComplete(ll, dl, b, p);
    } else {
      var out' := Emit(ts[0], out);
      AtConcat(b, p, TokenBits(ll, dl, ts[0]), TokensBits(ll, dl, ts[1..], out'));
      TokenComplete(ll, dl, b, p, ts[0]);
      TokensFitIs(ll, dl, b, p + |TokenBits(ll, dl, ts[0])|, out', ts[1..], size);
    }
  }

  lemma BlockFitIs(b: seq<Bit>, p: nat, out: seq<Byte>, block: Block, size: nat)
    requires p + 3 <= |b| && BodyAt(b, block, p, out) && BlockType(block) == Val(b, p + 1, 2)
    ensures BlockFits(b, p, out, size) == BlockRoomy(block, p, out, size)
  {
    hide GoodCode, ReadTokens, ValidTokens, ExpandTokens, TokensBits, TokensRoomy, TokensFit, ReadTrees, Header.ValidFront,
      ValidOps, ApplyOps, Header.ToBits, Header.LitLengths, Header.DistLengths, At, FixedLit, FixedDist, Val, ReadStored;
    match block
    case Stored(pad, data) =>
      StoredComplete(b, p, out, pad, data);
    case Fixed(ts) =>
      FixedGood();
      TokensFitIs(FixedLit(), FixedDist(), b, p + 3, out, ts, size);
    case Dynamic(h, ts) =>
      AtConcat(b, p + 3, h.ToBits(), TokensBits(h.LitLengths(), h.DistLengths(), ts, out));
      TreesComplete(b, p + 3, h);
      HeaderGood(h);
      TokensFitIs(h.LitLengths(), h.DistLengths(), b, p + 3 + |h.ToBits()|, out, ts, size);
  }

  lemma {:induction false} StreamFitIs(b: seq<Bit>, p: nat, out: seq<Byte>, s: Stream, size: nat)
    requires p <= |b| && ValidStream(s, p, out) && At(b, p, StreamBits(s, p, out))
    ensures StreamFits(b, p, out, size) == StreamRoomy(s, p, out, size)
    decreases s
  {
    hide ReadBlock, BlockBits, ValidBlock, ExpandBlock, At, BodyBits, Val, BlockFits, BlockRoomy;
    BlockBitsAt(b, s.Last?, s.block, p, out);
    if s.More? {
      var q, out' := NextBlock(s.block, p, out), ExpandBlock(s.block, p, out);
      AtConcat(b, p, BlockBits(false, s.block, p, out), StreamBits(s.rest, q, out'));
      BlockBitsAt(b, false, s.block, p, out);
      BlockComplete(b, p, out, s.block);
      BlockFitIs(b, p, out, s.block, size);
      StreamFitIs(b, q, out', s.rest, size);
    } else {
      BlockFitIs(b, p, out, s.block, size);
    }
  }

  /** A compressed block without tokens. */
  predicate Quiet(block: Block) {
    !block.Stored? && block.tokens == []
  }

  /** A compressed block whose last token is a literal. */
  predicate EndsInLiteral(block: Block) {
    !block.Stored? && block.tokens != [] && block.tokens[|block.tokens| - 1].Literal?
  }

  predicate AllQuiet(s: Stream) {
    Quiet(s.block) && (s.More? ==> AllQuiet(s.rest))
  }

  /** But for empty compressed blocks, the stream ends with a literal, if it holds anything at all. */
  predicate LiteralLast(s: Stream) {
    AllQuiet(s) || (if s.Last? || AllQuiet(s.rest) then EndsInLiteral(s.block) else LiteralLast(s.rest))
  }

  lemma {:induction false} TokensExact(ll: seq<nat>, dl: seq<nat>, ts: seq<Token>, out: seq<Byte>, size: nat)
    requires ValidTokens(ll, dl, ts, out)
    ensures |out| <= |ExpandTokens(ll, dl, ts, out)| && (ts != [] ==> |out| < |ExpandTokens(ll, dl, ts, out)|)
    ensures |ExpandTokens(ll, dl, ts, out)| < size ==> TokensRoomy(ll, dl, ts, out, size)
    ensures |ExpandTokens(ll, dl, ts, out)| == size ==>
              TokensRoomy(ll, dl, ts, out, size) == (ts == [] || ts[|ts| - 1].Literal?)
    decreases |ts|
  {
    hide Copy, LenBits, DistBits;
    if ts != [] {
      LengthsPositive(ts[0], out);
      TokensExact(ll, dl, ts[1..], Emit(ts[0], out), size);
    }
  }

  lemma LengthsPositive(t: Token, out: seq<Byte>)
    requires InWindow(t, |out|)
    ensures |Emit(t, out)| == |out| + (if t.Literal? then 1 else MatchLength(t)) && (t.Match? ==> MatchLength(t) > 0)
  {
    hide Copy;
  }

  lemma BlockExact(block: Block, p: nat, out: seq<Byte>, size: nat)
    requires ValidBlock(block, p, out)
    ensures |out| <= |ExpandBlock(block, p, out)|
    ensures Quiet(block) ==> ExpandBlock(block, p, out) == out
    ensures EndsInLiteral(block) ==> |out| < |ExpandBlock(block, p, out)|
    ensures |ExpandBlock(block, p, out)| < size ==> BlockRoomy(block, p, out, size)
    ensures |ExpandBlock(block, p, out)| == size ==> BlockRoomy(block, p, out, size) == (Quiet(block) || EndsInLiteral(block))
  {
    hide TokensRoomy, ExpandTokens, ValidTokens, FixedLit, FixedDist, Header.LitLengths, Header.DistLengths;
    match block
    case Stored(_, _) =>
    case Fixed(ts) =>
      TokensExact(FixedLit(), FixedDist(), ts, out, size);
      NoTokens(FixedLit(), FixedDist(), out);
    case Dynamic(h, ts) =>
      TokensExact(h.LitLengths(), h.DistLengths(), ts, out, size);
      NoTokens(h.LitLengths(), h.DistLengths(), out);
  }

  lemma NoTokens(ll: seq<nat>, dl: seq<nat>, out: seq<Byte>)
    ensures ValidTokens(ll, dl, [], out) && ExpandTokens(ll, dl, [], out) == out
  {}

  /** Exactly when upng.c has room: a byte to spare, or a literal to fill the last one. */
  lemma {:induction false} StreamExact(s: Stream, p: nat, out: seq<Byte>, size: nat)
    requires ValidStream(s, p, out)
    ensures |out| <= |Expand(s, p, out)|
    ensures AllQuiet(s) ==> Expand(s, p, out) == out
    ensures !AllQuiet(s) && LiteralLast(s) ==> |out| < |Expand(s, p, out)|
    ensures |Expand(s, p, out)| < size ==> StreamRoomy(s, p, out, size)
    ensures |Expand(s, p, out)| == size ==> StreamRoomy(s, p, out, size) == LiteralLast(s)
    decreases s
  {
    hide ValidBlock, ExpandBlock, BlockRoomy, Quiet, EndsInLiteral, BlockBits;
    BlockExact(s.block, p, out, size);
    if s.More? {
      StreamExact(s.rest, NextBlock(s.block, p, out), ExpandBlock(s.block, p, out), size);
    }
  }

  // ----- padding a code with unused symbols -----

  function Padded(ls: seq<nat>, n: nat): (r: seq<nat>)
    requires |ls| <= n
    ensures |r| == n
  {
    ls + Repeat(0, n - |ls|)
  }

  lemma {:induction false} PaddedCnt(ls: seq<nat>, n: nat, m: nat, len: nat)
    requires |ls| <= n && m <= n && len > 0
    ensures Cnt(Padded(ls, n), m, len) == Cnt(ls, if m <= |ls| then m else |ls|, len)
  {
    if m > 0 {
      PaddedCnt(ls, n, m - 1, len);
    }
  }

  lemma PaddedLenCount(ls: seq<nat>, n: nat, len: nat)
    requires |ls| <= n
    ensures LenCount(Padded(ls, n), len) == LenCount(ls, len)
  {
    hide Padded, Cnt;
    if len > 0 {
      PaddedCnt(ls, n, n, len);
    }
  }

  lemma {:induction false} PaddedSums(ls: seq<nat>, n: nat, len: nat)
    requires |ls| <= n
    ensures First(Padded(ls, n), len) == First(ls, len) && Shorter(Padded(ls, n), len) == Shorter(ls, len)
  {
    hide Padded, LenCount;
    if len > 0 {
      PaddedLenCount(ls, n, len - 1);
      PaddedSums(ls, n, len - 1);
    }
  }

  lemma PaddedUsable(ls: seq<nat>, n: nat)
    requires |ls| <= n <= 288 && ValidLengths(ls) && Usable(ls)
    ensures ValidLengths(Padded(ls, n)) && Usable(Padded(ls, n)) && CodeCount(Padded(ls, n)) == CodeCount(ls)
  {
    hide First, LenCount, Shorter, Kraft;
    PaddedSums(ls, n, 16);
    PaddedSums(ls, n, 15);
    PaddedLenCount(ls, n, 1);
    PaddedLenCount(ls, n, 15);
    KraftIsFirst(ls, 15);
    KraftIsFirst(Padded(ls, n), 15);
  }

  lemma PaddedValue(ls: seq<nat>, n: nat, s: nat)
    requires HasCode(ls, s) && |ls| <= n
    ensures HasCode(Padded(ls, n), s) && Padded(ls, n)[s] == ls[s]
    ensures CodeValue(Padded(ls, n), s) == CodeValue(ls, s)
  {
    hide First, Cnt;
    PaddedSums(ls, n, ls[s]);
    PaddedCnt(ls, n, s, ls[s]);
  }

  /** Unused symbols do not change what is decoded. */
  lemma PaddedDecode(ls: seq<nat>, n: nat, b: seq<Bit>, p: nat)
    requires |ls| <= n <= 288 && ValidLengths(ls) && Usable(ls) && DecodeSymbol(ls, b, p).Found?
    ensures DecodeSymbol(Padded(ls, n), b, p) == DecodeSymbol(ls, b, p)
  {
    hide Padded, CodeValue, Usable, GoodCode, At;
    var r := DecodeSymbol(ls, b, p);
    PaddedUsable(ls, n);
    UsableGood(ls);
    UsableGood(Padded(ls, n));
    PaddedValue(ls, n, r.symbol);
    SymbolAtValue(ls, b, p, r.symbol);
    SymbolAtValue(Padded(ls, n), b, p, r.symbol);
    DecodeSymbolIs(Padded(ls, n), b, p, r.symbol);
  }

  lemma PaddedSelf(ls: seq<nat>)
    ensures Padded(ls, |ls|) == ls
  {}

  // ----- one step, as the inflater takes it -----

  /** TokensFit unfolded once, in terms of the symbol at `p`. */
  lemma FitStep(ll: seq<nat>, dl: seq<nat>, b: seq<Bit>, p: nat, out: seq<Byte>, size: nat)
    requires p <= |b| && DecodeSymbol(ll, b, p).Found?
    ensures var r := DecodeSymbol(ll, b, p);
            && (r.symbol < 256 ==>
                  TokensFit(ll, dl, b, p, out, size) ==
                  (|out| < size && TokensFit(ll, dl, b, r.next, out + [r.symbol], size)))
            && (r.symbol == 256 ==> TokensFit(ll, dl, b, p, out, size))
  {
    hide Val;
  }

  lemma FitMatch(ll: seq<nat>, dl: seq<nat>, b: seq<Bit>, p: nat, out: seq<Byte>, size: nat, q: nat, l: nat)
    requires p <= |b| && l < 29 && DecodeSymbol(ll, b, p) == Found(257 + l, q) && ReadMatch(dl, b, q, l).Tok?
    requires MatchDist(ReadMatch(dl, b, q, l).token) <= |out|
    ensures var m := ReadMatch(dl, b, q, l);
            TokensFit(ll, dl, b, p, out, size) ==
            (|out| + MatchLength(m.token) < size &&
             TokensFit(ll, dl, b, m.next, Copy(out, MatchLength(m.token), MatchDist(m.token)), size))
  {
    hide Val, Copy, ReadMatch;
  }

  /** When a block decodes up to `q`, so do its first symbol and the parts of its first match. */
  lemma TokensWithin(ll: seq<nat>, dl: seq<nat>, b: seq<Bit>, p: nat, out: seq<Byte>)
    requires p <= |b| && ReadTokens(ll, dl, b, p, out).Done?
    ensures DecodeSymbol(ll, b, p).Found? && DecodeSymbol(ll, b, p).symbol <= 285
    ensures DecodeSymbol(ll, b, p).next <= ReadTokens(ll, dl, b, p, out).next
    ensures var r := DecodeSymbol(ll, b, p);
            r.symbol > 256 ==>
              var m := ReadMatch(dl, b, r.next, r.symbol - 257);
              m.Tok? && MatchDist(m.token) <= |out| && m.next <= ReadTokens(ll, dl, b, p, out).next
  {
    hide Val, Copy, ReadMatch, TokensFit;
    TokenStep(ll, dl, b, p, out);
  }

  lemma MatchWithin(dl: seq<nat>, b: seq<Bit>, q: nat, l: nat)
    requires l < 29 && ReadMatch(dl, b, q, l).Tok?
    ensures var r := DecodeSymbol(dl, b, q + LenBits(l));
            var m := ReadMatch(dl, b, q, l);
            && r.Found? && r.symbol <= 29 && q + LenBits(l) <= |b| && r.next + DistBits(r.symbol) == m.next
            && m.token.Match? && m.token.len == l && m.token.dist == r.symbol
            && MatchLength(m.token) == LenBase(l) + Val(b, q, LenBits(l))
            && MatchDist(m.token) == DistBase(r.symbol) + Val(b, r.next, DistBits(r.symbol))
  {
    hide Val, LenBits, LenBase, DistBits, DistBase;
  }

  /** A window copy repeats the last `dist` bytes, which is what the wrapping pointer of upng.c reads. */
  lemma {:induction false} CopyPeriodic(out: seq<Byte>, len: nat, dist: nat, k: nat)
    requires 1 <= dist <= |out| && k < len
    ensures Copy(out, len, dist)[|out| + k] == out[|out| - dist + k % dist]
    decreases len
  {
    var out' := out + [out[|out| - dist]];
    assert Copy(out, len, dist) == Copy(out', len - 1, dist);
    if k == 0 {
      assert Copy(out, len, dist)[..|out'|] == out';
    } else {
      CopyPeriodic(out', len - 1, dist, k - 1);
      ModNext(k - 1, dist);
    }
  }

  lemma ModNext(k: nat, d: nat)
    requires d > 0
    ensures (k + 1) % d == if k % d == d - 1 then 0 else k % d + 1
  {
    var q, r := k / d, k % d;
    if r == d - 1 {
      assert k + 1 == d * (q + 1) + 0;
      DivModUnique(k + 1, d, q + 1, 0);
    } else {
      DivModUnique(k + 1, d, q, r + 1);
    }
  }
}
