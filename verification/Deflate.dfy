/**
 * The DEFLATE format (sections 3.2.3 to 3.2.7 of RFC 1951) as a grammar: abstract streams, the bits
 * they are written as, and the bytes they stand for.  Nothing in this module decodes.
 */
module Deflate {
  import opened Bits
  import opened Canonical

  /** Extra bits and base values of length symbols 257..285 and distance symbols 0..29 (section 3.2.5). */
  const LENGTH_BITS: seq<nat> :=
    [0, 0, 0, 0, 0, 0, 0, 0, 1, 1, 1, 1, 2, 2, 2, 2, 3, 3, 3, 3, 4, 4, 4, 4, 5, 5, 5, 5, 0]
  const LENGTH_BASE: seq<nat> :=
    [3, 4, 5, 6, 7, 8, 9, 10, 11, 13, 15, 17, 19, 23, 27, 31, 35, 43, 51, 59,
     67, 83, 99, 115, 131, 163, 195, 227, 258]
  const DIST_BITS: seq<nat> :=
    [0, 0, 0, 0, 1, 1, 2, 2, 3, 3, 4, 4, 5, 5, 6, 6, 7, 7, 8, 8, 9, 9, 10, 10, 11, 11, 12, 12, 13, 13]
  const DIST_BASE: seq<nat> :=
    [1, 2, 3, 4, 5, 7, 9, 13, 17, 25, 33, 49, 65, 97, 129, 193, 257, 385, 513, 769,
     1025, 1537, 2049, 3073, 4097, 6145, 8193, 12289, 16385, 24577]
  /** The order in which code length code lengths are sent (section 3.2.7). */
  const ORDER: seq<nat> := [16, 17, 18, 0, 8, 7, 9, 6, 10, 5, 11, 4, 12, 3, 13, 2, 14, 1, 15]

  function LenBits(l: nat): (n: nat)
    requires l < 29
    ensures n <= 5
  {
    LENGTH_BITS[l]
  }

  function LenBase(l: nat): (n: nat)
    requires l < 29
    ensures 3 <= n <= 258
  {
    LENGTH_BASE[l]
  }

  function DistBits(d: nat): (n: nat)
    requires d < 30
    ensures n <= 13
  {
    DIST_BITS[d]
  }

  function DistBase(d: nat): (n: nat)
    requires d < 30
    ensures 1 <= n <= 24577
  {
    DIST_BASE[d]
  }

  function Order(i: nat): (s: nat)
    requires i < 19
    ensures s < 19
  {
    ORDER[i]
  }

  // ----- literals and matches -----

  datatype Token =
    | Literal(byte: Byte)
    | Match(len: nat, lenExtra: nat, dist: nat, distExtra: nat)

  predicate ValidToken(ll: seq<nat>, dl: seq<nat>, t: Token) {
    match t
    case Literal(x) => HasCode(ll, x)
    case Match(l, le, d, de) =>
      && l < 29 && HasCode(ll, 257 + l) && le < Pow2(LenBits(l))
      && d < 30 && HasCode(dl, d) && de < Pow2(DistBits(d))
  }

  function TokenBits(ll: seq<nat>, dl: seq<nat>, t: Token): seq<Bit>
    requires ValidToken(ll, dl, t)
  {
    match t
    case Literal(x) => Code(ll, x)
    case Match(l, le, d, de) =>
      Code(ll, 257 + l) + (LsbBits(le, LenBits(l)) + (Code(dl, d) + LsbBits(de, DistBits(d))))
  }

  /** The bytes a match appends: each is the one `dist` back, so a match may overlap its own output. */
  function Copy(out: seq<Byte>, len: nat, dist: nat): (r: seq<Byte>)
    requires 1 <= dist <= |out|
    ensures |r| == |out| + len && r[..|out|] == out
    decreases len
  {
    if len == 0 then out else Copy(out + [out[|out| - dist]], len - 1, dist)
  }

  function MatchLength(t: Token): nat
    requires t.Match? && t.len < 29
  {
    LenBase(t.len) + t.lenExtra
  }

  function MatchDist(t: Token): (d: nat)
    requires t.Match? && t.dist < 30
    ensures d >= 1
  {
    DistBase(t.dist) + t.distExtra
  }

  /** A match must not reach before the start of the output. */
  predicate InWindow(t: Token, produced: nat) {
    t.Match? ==> t.len < 29 && t.dist < 30 && MatchDist(t) <= produced
  }

  function Emit(t: Token, out: seq<Byte>): seq<Byte>
    requires InWindow(t, |out|)
  {
    match t
    case Literal(x) => out + [x]
    case Match(_, _, _, _) => Copy(out, MatchLength(t), MatchDist(t))
  }

  /** The tokens of one block, valid after `out`. */
  predicate ValidTokens(ll: seq<nat>, dl: seq<nat>, ts: seq<Token>, out: seq<Byte>) {
    ts == [] ||
    (ValidToken(ll, dl, ts[0]) && InWindow(ts[0], |out|) && ValidTokens(ll, dl, ts[1..], Emit(ts[0], out)))
  }

  function ExpandTokens(ll: seq<nat>, dl: seq<nat>, ts: seq<Token>, out: seq<Byte>): seq<Byte>
    requires ValidTokens(ll, dl, ts, out)
  {
    if ts == [] then out else ExpandTokens(ll, dl, ts[1..], Emit(ts[0], out))
  }

  /** The tokens followed by the end-of-block code 256. */
  function TokensBits(ll: seq<nat>, dl: seq<nat>, ts: seq<Token>, out: seq<Byte>): seq<Bit>
    requires ValidTokens(ll, dl, ts, out) && HasCode(ll, 256)
  {
    if ts == [] then Code(ll, 256)
    else TokenBits(ll, dl, ts[0]) + TokensBits(ll, dl, ts[1..], Emit(ts[0], out))
  }

  // ----- dynamic code lengths (section 3.2.7) -----

  datatype LenOp = Len(n: nat) | CopyPrev(extra: nat) | Zeros(extra: nat) | MoreZeros(extra: nat)

  function OpSymbol(op: LenOp): nat {
    match op
    case Len(n) => n
    case CopyPrev(_) => 16
    case Zeros(_) => 17
    case MoreZeros(_) => 18
  }

  function OpExtraBits(op: LenOp): nat {
    match op
    case Len(_) => 0
    case CopyPrev(_) => 2
    case Zeros(_) => 3
    case MoreZeros(_) => 7
  }

  function OpExtra(op: LenOp): nat {
    if op.Len? then 0 else op.extra
  }

  function Repeat(x: nat, n: nat): (r: seq<nat>)
    ensures |r| == n && forall i | 0 <= i < n :: r[i] == x
  {
    seq(n, _ => x)
  }

  /** What an instruction appends to the lengths read so far. */
  function OpLengths(op: LenOp, acc: seq<nat>): seq<nat>
    requires op.CopyPrev? ==> acc != []
  {
    match op
    case Len(n) => [n]
    case CopyPrev(e) => Repeat(acc[|acc| - 1], 3 + e)
    case Zeros(e) => Repeat(0, 3 + e)
    case MoreZeros(e) => Repeat(0, 11 + e)
  }

  predicate ValidOp(cl: seq<nat>, op: LenOp, acc: seq<nat>, total: nat) {
    && HasCode(cl, OpSymbol(op))
    && (op.Len? ==> op.n <= 15)
    && OpExtra(op) < Pow2(OpExtraBits(op))
    && (op.CopyPrev? ==> acc != [])
    && |acc| + |OpLengths(op, acc)| <= total
  }

  function OpBits(cl: seq<nat>, op: LenOp): seq<Bit>
    requires HasCode(cl, OpSymbol(op))
  {
    Code(cl, OpSymbol(op)) + LsbBits(OpExtra(op), OpExtraBits(op))
  }

  /** Instructions that extend `acc` to exactly `total` code lengths. */
  predicate ValidOps(cl: seq<nat>, ops: seq<LenOp>, acc: seq<nat>, total: nat) {
    if ops == [] then |acc| == total
    else
      && |acc| < total
      && ValidOp(cl, ops[0], acc, total)
      && ValidOps(cl, ops[1..], acc + OpLengths(ops[0], acc), total)
  }

  function ApplyOps(cl: seq<nat>, ops: seq<LenOp>, acc: seq<nat>, total: nat): (r: seq<nat>)
    requires ValidOps(cl, ops, acc, total)
    ensures |r| == total
  {
    if ops == [] then acc else ApplyOps(cl, ops[1..], acc + OpLengths(ops[0], acc), total)
  }

  function OpsBits(cl: seq<nat>, ops: seq<LenOp>, acc: seq<nat>, total: nat): seq<Bit>
    requires ValidOps(cl, ops, acc, total)
  {
    if ops == [] then []
    else OpBits(cl, ops[0]) + OpsBits(cl, ops[1..], acc + OpLengths(ops[0], acc), total)
  }

  /** The lengths of the 19 code length codes after the first `n` have been sent. */
  function ClLengths(clens: seq<nat>, n: nat): (r: seq<nat>)
    requires n <= |clens| && n <= 19
    ensures |r| == 19
  {
    if n == 0 then Repeat(0, 19) else ClLengths(clens, n - 1)[Order(n - 1) := clens[n - 1]]
  }

  function ClensBits(clens: seq<nat>, i: nat): seq<Bit>
    requires i <= |clens|
    decreases |clens| - i
  {
    if i == |clens| then [] else LsbBits(clens[i], 3) + ClensBits(clens, i + 1)
  }

  datatype Header = Header(hlit: nat, hdist: nat, clens: seq<nat>, ops: seq<LenOp>) {
    function Total(): nat { hlit + hdist }

    predicate ValidFront() {
      && 257 <= hlit <= 286 && 1 <= hdist <= 30 && 4 <= |clens| <= 19
      && (forall i | 0 <= i < |clens| :: clens[i] < 8)
      && Usable(Cl()) && CodeCount(Cl()) > 0
    }

    function Cl(): seq<nat>
      requires |clens| <= 19
    {
      ClLengths(clens, |clens|)
    }

    predicate Valid() {
      && ValidFront()
      && ValidOps(Cl(), ops, [], Total())
      && Lengths()[256] > 0 && Usable(LitLengths()) && Usable(DistLengths())
    }

    function Lengths(): (r: seq<nat>)
      requires ValidFront() && ValidOps(Cl(), ops, [], Total())
      ensures |r| == Total()
    {
      ApplyOps(Cl(), ops, [], Total())
    }

    function LitLengths(): seq<nat>
      requires ValidFront() && ValidOps(Cl(), ops, [], Total())
    {
      Lengths()[..hlit]
    }

    function DistLengths(): seq<nat>
      requires ValidFront() && ValidOps(Cl(), ops, [], Total())
    {
      Lengths()[hlit..]
    }

    function FrontBits(): seq<Bit>
      requires ValidFront()
    {
      LsbBits(hlit - 257, 5) + (LsbBits(hdist - 1, 5) + (LsbBits(|clens| - 4, 4) + ClensBits(clens, 0)))
    }

    function ToBits(): seq<Bit>
      requires Valid()
    {
      FrontBits() + OpsBits(Cl(), ops, [], Total())
    }
  }

  // ----- blocks and streams -----

  /** The codes of section 3.2.6. */
  function FixedLit(): (r: seq<nat>)
    ensures |r| == 288
  {
    seq(288, i => if i < 144 then 8 else if i < 256 then 9 else if i < 280 then 7 else 8)
  }

  function FixedDist(): (r: seq<nat>)
    ensures |r| == 32
  {
    Repeat(5, 32)
  }

  datatype Block =
    | Stored(padding: seq<Bit>, data: seq<Byte>)
    | Fixed(tokens: seq<Token>)
    | Dynamic(header: Header, tokens: seq<Token>)

  /** A block whose header bits start at bit `p`, after `out` has been produced. */
  predicate ValidBlock(block: Block, p: nat, out: seq<Byte>) {
    match block
    case Stored(pad, data) => (p + 3 + |pad|) % 8 == 0 && |pad| < 8 && |data| < 65536
    case Fixed(ts) => HasCode(FixedLit(), 256) && ValidTokens(FixedLit(), FixedDist(), ts, out)
    case Dynamic(h, ts) =>
      h.Valid() && HasCode(h.LitLengths(), 256) && ValidTokens(h.LitLengths(), h.DistLengths(), ts, out)
  }

  function ExpandBlock(block: Block, p: nat, out: seq<Byte>): seq<Byte>
    requires ValidBlock(block, p, out)
  {
    match block
    case Stored(_, data) => out + data
    case Fixed(ts) => ExpandTokens(FixedLit(), FixedDist(), ts, out)
    case Dynamic(h, ts) => ExpandTokens(h.LitLengths(), h.DistLengths(), ts, out)
  }

  function BlockType(block: Block): nat {
    match block
    case Stored(_, _) => 0
    case Fixed(_) => 1
    case Dynamic(_, _) => 2
  }

  /** The bits after the three header bits. */
  function BodyBits(block: Block, p: nat, out: seq<Byte>): seq<Bit>
    requires ValidBlock(block, p, out)
  {
    match block
    case Stored(pad, data) =>
      pad + (LsbBits(|data|, 16) + (LsbBits(65535 - |data|, 16) + BitsOf(data)))
    case Fixed(ts) => TokensBits(FixedLit(), FixedDist(), ts, out)
    case Dynamic(h, ts) => h.ToBits() + TokensBits(h.LitLengths(), h.DistLengths(), ts, out)
  }

  function BlockBits(last: bool, block: Block, p: nat, out: seq<Byte>): seq<Bit>
    requires ValidBlock(block, p, out)
  {
    [if last then 1 else 0] + (LsbBits(BlockType(block), 2) + BodyBits(block, p, out))
  }

  /** The blocks of a stream; only the last one carries the final flag. */
  datatype Stream = Last(block: Block) | More(block: Block, rest: Stream)

  /** Where the block after `block` starts. */
  function NextBlock(block: Block, p: nat, out: seq<Byte>): nat
    requires ValidBlock(block, p, out)
  {
    p + |BlockBits(false, block, p, out)|
  }

  predicate ValidStream(s: Stream, p: nat, out: seq<Byte>) {
    && ValidBlock(s.block, p, out)
    && (s.More? ==> ValidStream(s.rest, NextBlock(s.block, p, out), ExpandBlock(s.block, p, out)))
  }

  function StreamBits(s: Stream, p: nat, out: seq<Byte>): seq<Bit>
    requires ValidStream(s, p, out)
  {
    match s
    case Last(block) => BlockBits(true, block, p, out)
    case More(block, rest) =>
      BlockBits(false, block, p, out) + StreamBits(rest, NextBlock(block, p, out), ExpandBlock(block, p, out))
  }

  /** The bytes a stream stands for. */
  function Expand(s: Stream, p: nat, out: seq<Byte>): seq<Byte>
    requires ValidStream(s, p, out)
  {
    match s
    case Last(block) => ExpandBlock(block, p, out)
    case More(block, rest) => Expand(rest, NextBlock(block, p, out), ExpandBlock(block, p, out))
  }
}
