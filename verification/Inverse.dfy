/** Decoding inverts the grammar, in both directions, level by level. */
module Inverse {
  import opened Bits
  import opened Canonical
  import opened Deflate
  import opened Decoder

  /** A number read from the stream is written there. */
  lemma FieldSound(b: seq<Bit>, p: nat, n: nat)
    requires p + n <= |b|
    ensures Val(b, p, n) < Pow2(n) && At(b, p, LsbBits(Val(b, p, n), n))
  {
    ValBound(b, p, n);
    LsbAt(b, p, Val(b, p, n), n);
  }

  lemma FieldComplete(b: seq<Bit>, p: nat, v: nat, n: nat)
    requires v < Pow2(n) && At(b, p, LsbBits(v, n))
    ensures p + n <= |b| && Val(b, p, n) == v
  {
    LsbAt(b, p, v, n);
  }

  lemma AtConcat4(b: seq<Bit>, p: nat, u: seq<Bit>, v: seq<Bit>, w: seq<Bit>, x: seq<Bit>)
    ensures At(b, p, u + (v + (w + x))) <==>
            At(b, p, u) && At(b, p + |u|, v) && At(b, p + |u| + |v|, w) && At(b, p + |u| + |v| + |w|, x)
  {
    AtConcat(b, p, u, v + (w + x));
    AtConcat(b, p + |u|, v, w + x);
    AtConcat(b, p + |u| + |v|, w, x);
  }

  lemma MatchSound(ll: seq<nat>, dl: seq<nat>, b: seq<Bit>, p: nat, l: nat)
    requires GoodCode(ll) && GoodCode(dl) && l < 29 && SymbolAt(ll, b, p, 257 + l)
    requires ReadMatch(dl, b, p + ll[257 + l], l).Tok?
    ensures var r := ReadMatch(dl, b, p + ll[257 + l], l);
            ValidToken(ll, dl, r.token) && At(b, p, TokenBits(ll, dl, r.token)) &&
            r.next == p + |TokenBits(ll, dl, r.token)|
  {
    hide LenBits, DistBits, GoodCode, Code, At, LsbBits, Val, Pow2;
    var q := p + ll[257 + l];
    var q1 := q + LenBits(l);
    var r := ReadMatch(dl, b, q, l);
    var t := r.token;
    FieldSound(b, q, LenBits(l));
    var q2 := q1 + dl[t.dist];
    FieldSound(b, q2, DistBits(t.dist));
    AtConcat4(b, p, Code(ll, 257 + l), LsbBits(t.lenExtra, LenBits(l)),
              Code(dl, t.dist), LsbBits(t.distExtra, DistBits(t.dist)));
  }

  lemma TokenSound(ll: seq<nat>, dl: seq<nat>, b: seq<Bit>, p: nat)
    requires GoodCode(ll) && GoodCode(dl)
    ensures var r := ReadToken(ll, dl, b, p);
            && (r.Tok? ==> ValidToken(ll, dl, r.token) && At(b, p, TokenBits(ll, dl, r.token)) &&
                           r.next == p + |TokenBits(ll, dl, r.token)|)
            && (r.EndOfBlock? ==> SymbolAt(ll, b, p, 256) && r.next == p + ll[256])
  {
    hide LenBits, DistBits, GoodCode, Code;
    var f := DecodeSymbol(ll, b, p);
    if f.Found? && 256 < f.symbol <= 285 && ReadToken(ll, dl, b, p).Tok? {
      MatchSound(ll, dl, b, p, f.symbol - 257);
    }
  }

  lemma MatchComplete(ll: seq<nat>, dl: seq<nat>, b: seq<Bit>, p: nat, t: Token)
    requires GoodCode(ll) && GoodCode(dl) && t.Match?
    requires ValidToken(ll, dl, t) && At(b, p, TokenBits(ll, dl, t))
    ensures SymbolAt(ll, b, p, 257 + t.len)
    ensures ReadMatch(dl, b, p + ll[257 + t.len], t.len) == Tok(t, p + |TokenBits(ll, dl, t)|)
  {
    hide LenBits, DistBits, GoodCode, Code, At, LsbBits, Val, Pow2;
    var l, d := t.len, t.dist;
    var q := p + ll[257 + l];
    AtConcat4(b, p, Code(ll, 257 + l), LsbBits(t.lenExtra, LenBits(l)), Code(dl, d), LsbBits(t.distExtra, DistBits(d)));
    FieldComplete(b, q, t.lenExtra, LenBits(l));
    DecodeSymbolIs(dl, b, q + LenBits(l), d);
    FieldComplete(b, q + LenBits(l) + dl[d], t.distExtra, DistBits(d));
  }

  lemma TokenComplete(ll: seq<nat>, dl: seq<nat>, b: seq<Bit>, p: nat, t: Token)
    requires GoodCode(ll) && GoodCode(dl)
    requires ValidToken(ll, dl, t) && At(b, p, TokenBits(ll, dl, t))
    ensures ReadToken(ll, dl, b, p) == Tok(t, p + |TokenBits(ll, dl, t)|)
  {
    hide LenBits, DistBits, GoodCode, Code, At, LsbBits, Val, Pow2, ReadMatch;
    if t.Literal? {
      DecodeSymbolIs(ll, b, p, t.byte);
    } else {
      MatchComplete(ll, dl, b, p, t);
      DecodeSymbolIs(ll, b, p, 257 + t.len);
    }
  }

  lemma EndComplete(ll: seq<nat>, dl: seq<nat>, b: seq<Bit>, p: nat)
    requires GoodCode(ll) && SymbolAt(ll, b, p, 256)
    ensures ReadToken(ll, dl, b, p) == EndOfBlock(p + ll[256])
  {
    hide LenBits, DistBits, GoodCode, Code;
    DecodeSymbolIs(ll, b, p, 256);
  }

  lemma {:induction false} TokensSound(ll: seq<nat>, dl: seq<nat>, b: seq<Bit>, p: nat, out: seq<Byte>)
    returns (ts: seq<Token>)
    requires GoodCode(ll) && GoodCode(dl) && p <= |b|
    requires ReadTokens(ll, dl, b, p, out).Done?
    ensures HasCode(ll, 256) && ValidTokens(ll, dl, ts, out)
    ensures At(b, p, TokensBits(ll, dl, ts, out))
    ensures ReadTokens(ll, dl, b, p, out) ==
            Done(ExpandTokens(ll, dl, ts, out), p + |TokensBits(ll, dl, ts, out)|)
    decreases |b| - p
  {
    hide LenBits, DistBits, GoodCode, Code, At, TokenBits, ValidToken;
    TokenSound(ll, dl, b, p);
    var r := ReadToken(ll, dl, b, p);
    if r.EndOfBlock? {
      ts := [];
    } else {
      var t := r.token;
      var rest := TokensSound(ll, dl, b, r.next, Emit(t, out));
      ts := [t] + rest;
      assert ts[1..] == rest;
      AtConcat(b, p, TokenBits(ll, dl, t), TokensBits(ll, dl, rest, Emit(t, out)));
    }
  }

  lemma {:induction false} TokensComplete(ll: seq<nat>, dl: seq<nat>, b: seq<Bit>, p: nat, out: seq<Byte>, ts: seq<Token>)
    requires GoodCode(ll) && GoodCode(dl) && p <= |b|
    requires HasCode(ll, 256) && ValidTokens(ll, dl, ts, out)
    requires At(b, p, TokensBits(ll, dl, ts, out))
    ensures ReadTokens(ll, dl, b, p, out) ==
            Done(ExpandTokens(ll, dl, ts, out), p + |TokensBits(ll, dl, ts, out)|)
    decreases |ts|
  {
    hide LenBits, DistBits, GoodCode, Code, At, TokenBits, ValidToken;
    if ts == [] {
      EndComplete(ll, dl, b, p);
    } else {
      var out' := Emit(ts[0], out);
      AtConcat(b, p, TokenBits(ll, dl, ts[0]), TokensBits(ll, dl, ts[1..], out'));
      TokenComplete(ll, dl, b, p, ts[0]);
      TokensComplete(ll, dl, b, p + |TokenBits(ll, dl, ts[0])|, out', ts[1..]);
    }
  }

  // ----- code lengths -----

  lemma OpSound(cl: seq<nat>, b: seq<Bit>, p: nat)
    requires GoodCode(cl) && |cl| == 19 && ReadOp(cl, b, p).Op?
    ensures var r := ReadOp(cl, b, p);
            && HasCode(cl, OpSymbol(r.op)) && (r.op.Len? ==> r.op.n <= 15)
            && OpExtra(r.op) < Pow2(OpExtraBits(r.op))
            && At(b, p, OpBits(cl, r.op)) && r.next == p + |OpBits(cl, r.op)|
  {
    hide LenBits, DistBits, GoodCode, Code;
    var s, q := DecodeSymbol(cl, b, p).symbol, DecodeSymbol(cl, b, p).next;
    var n := OpExtraBits(MakeOp(s, 0));
    FieldSound(b, q, n);
    AtConcat(b, p, Code(cl, s), LsbBits(Val(b, q, n), n));
  }

  lemma OpComplete(cl: seq<nat>, b: seq<Bit>, p: nat, op: LenOp)
    requires GoodCode(cl) && HasCode(cl, OpSymbol(op)) && (op.Len? ==> op.n <= 15)
    requires OpExtra(op) < Pow2(OpExtraBits(op)) && At(b, p, OpBits(cl, op))
    ensures ReadOp(cl, b, p) == Op(op, p + |OpBits(cl, op)|)
  {
    hide LenBits, DistBits, GoodCode, Code;
    var s := OpSymbol(op);
    AtConcat(b, p, Code(cl, s), LsbBits(OpExtra(op), OpExtraBits(op)));
    DecodeSymbolIs(cl, b, p, s);
    FieldComplete(b, p + cl[s], OpExtra(op), OpExtraBits(op));
  }

  lemma {:induction false} OpsSound(cl: seq<nat>, b: seq<Bit>, p: nat, acc: seq<nat>, total: nat)
    returns (ops: seq<LenOp>)
    requires GoodCode(cl) && |cl| == 19 && p <= |b| && ReadOps(cl, b, p, acc, total).Lens?
    ensures ValidOps(cl, ops, acc, total) && At(b, p, OpsBits(cl, ops, acc, total))
    ensures ReadOps(cl, b, p, acc, total) ==
            Lens(ApplyOps(cl, ops, acc, total), p + |OpsBits(cl, ops, acc, total)|)
    decreases |b| - p
  {
    hide LenBits, DistBits, GoodCode, Code, At, OpBits;
    if |acc| == total {
      ops := [];
      AtEmpty(b, p);
    } else {
      OpSound(cl, b, p);
      var r := ReadOp(cl, b, p);
      var acc' := acc + OpLengths(r.op, acc);
      var rest := OpsSound(cl, b, r.next, acc', total);
      ops := [r.op] + rest;
      assert ops[1..] == rest;
      AtConcat(b, p, OpBits(cl, r.op), OpsBits(cl, rest, acc', total));
    }
  }

  lemma {:induction false} OpsComplete(cl: seq<nat>, b: seq<Bit>, p: nat, acc: seq<nat>, total: nat, ops: seq<LenOp>)
    requires GoodCode(cl) && p <= |b| && ValidOps(cl, ops, acc, total) && At(b, p, OpsBits(cl, ops, acc, total))
    ensures ReadOps(cl, b, p, acc, total) ==
            Lens(ApplyOps(cl, ops, acc, total), p + |OpsBits(cl, ops, acc, total)|)
    decreases |ops|
  {
    hide LenBits, DistBits, GoodCode, Code, At, OpBits, ReadOp, OpLengths;
    if ops != [] {
      var acc' := acc + OpLengths(ops[0], acc);
      AtConcat(b, p, OpBits(cl, ops[0]), OpsBits(cl, ops[1..], acc', total));
      OpComplete(cl, b, p, ops[0]);
      OpsComplete(cl, b, p + |OpBits(cl, ops[0])|, acc', total, ops[1..]);
    }
  }

  lemma {:induction false} ClensLength(clens: seq<nat>, i: nat)
    requires i <= |clens|
    ensures |ClensBits(clens, i)| == 3 * (|clens| - i)
    decreases |clens| - i
  {
    if i < |clens| {
      ClensLength(clens, i + 1);
    }
  }

  lemma {:induction false} ClensSound(b: seq<Bit>, p: nat, clens: seq<nat>, i: nat)
    requires i <= |clens| && p + 3 * (|clens| - i) <= |b|
    requires clens[i..] == ReadClens(b, p, |clens| - i)
    ensures forall j | i <= j < |clens| :: clens[j] < 8
    ensures At(b, p, ClensBits(clens, i))
    decreases |clens| - i
  {
    if i < |clens| {
      FieldSound(b, p, 3);
      assert clens[i] == clens[i..][0] == Val(b, p, 3);
      assert clens[i + 1..] == clens[i..][1..];
      ClensSound(b, p + 3, clens, i + 1);
      AtConcat(b, p, LsbBits(clens[i], 3), ClensBits(clens, i + 1));
      assert Pow2(3) == 8;
    }
  }

  lemma {:induction false} ClensComplete(b: seq<Bit>, p: nat, clens: seq<nat>, i: nat)
    requires i <= |clens| && (forall j | i <= j < |clens| :: clens[j] < 8)
    requires At(b, p, ClensBits(clens, i))
    ensures p + 3 * (|clens| - i) <= |b|
    ensures clens[i..] == ReadClens(b, p, |clens| - i)
    decreases |clens| - i
  {
    ClensLength(clens, i);
    if i < |clens| {
      AtConcat(b, p, LsbBits(clens[i], 3), ClensBits(clens, i + 1));
      assert Pow2(3) == 8;
      FieldComplete(b, p, clens[i], 3);
      ClensComplete(b, p + 3, clens, i + 1);
      assert clens[i..] == [clens[i]] + clens[i + 1..];
    }
  }

  // ----- one step of the decoder, as its implementations take it -----

  /** ReadTokens unfolded once, in terms of the symbol at `p`. */
  lemma TokenStep(ll: seq<nat>, dl: seq<nat>, b: seq<Bit>, p: nat, out: seq<Byte>)
    requires p <= |b|
    ensures ReadTokens(ll, dl, b, p, out) ==
            var r := DecodeSymbol(ll, b, p);
            if r.NotFound? || r.symbol > 285 then Invalid
            else if r.symbol < 256 then ReadTokens(ll, dl, b, r.next, out + [r.symbol])
            else if r.symbol == 256 then Done(out, r.next)
            else
              var m := ReadMatch(dl, b, r.next, r.symbol - 257);
              if m.Tok? && MatchDist(m.token) <= |out|
              then ReadTokens(ll, dl, b, m.next, Copy(out, MatchLength(m.token), MatchDist(m.token)))
              else Invalid
  {
    hide Copy;
  }

  /** ReadOps unfolded once, in terms of the symbol at `p`. */
  lemma OpStep(cl: seq<nat>, b: seq<Bit>, p: nat, acc: seq<nat>, total: nat)
    requires p <= |b| && |acc| < total
    ensures DecodeSymbol(cl, b, p) == NotFound ==> ReadOps(cl, b, p, acc, total) == BadLens
    ensures var r := DecodeSymbol(cl, b, p);
            r.Found? ==>
              var n := OpExtraBits(MakeOp(r.symbol, 0));
              var op := MakeOp(r.symbol, Val(b, r.next, n));
              ReadOps(cl, b, p, acc, total) ==
              if r.next + n > |b| || (op.CopyPrev? && acc == []) || |acc| + |OpLengths(op, acc)| > total then BadLens
              else ReadOps(cl, b, r.next + n, acc + OpLengths(op, acc), total)
  {
    hide OpLengths, Val;
  }

  lemma TreesNeedFront(b: seq<Bit>, p: nat)
    requires ReadTrees(b, p).Trees?
    ensures ReadFront(b, p).Front?
  {
    hide ReadOps, ReadFront, SplitLengths;
  }

  /** ReadTrees unfolded into its two stages. */
  lemma TreesStages(b: seq<Bit>, p: nat, f: Front)
    requires f == ReadFront(b, p) && f.Front?
    ensures ReadTrees(b, p) == SplitLengths(ReadOps(f.cl, b, f.next, [], f.hlit + f.hdist), f.hlit)
  {
    hide ReadOps, ReadFront, SplitLengths;
  }
}
