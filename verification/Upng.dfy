/** The inflater of upng.c: bit pointer, table walk, block decoders and uz_inflate_data. */
module Upng {
  import opened Bits
  import opened Canonical
  import opened Deflate
  import opened Decoder
  import opened Inverse
  import opened Streams
  import opened TinfTree
  import opened UpngTree
  import opened UpngSpec
  import opened FixedCodes

  function RoundUp(p: nat, least: nat): (r: nat)
    ensures r % 8 == 0 && p <= r && least <= r
    ensures r == (p + 7) / 8 * 8 || r == (least + 7) / 8 * 8
  {
    if p >= least then (p + 7) / 8 * 8 else (least + 7) / 8 * 8
  }

  class Inflater {
    const input: seq<Byte>     // the bytes from &in[inpos] on
    const inlength: U32
    const out: array<Byte>
    const outsize: U32
    var bp: nat
    var pos: nat
    var error: bool

    constructor (input: seq<Byte>, inlength: U32, out: array<Byte>, outsize: U32)
      ensures this.input == input && this.inlength == inlength && this.out == out && this.outsize == outsize
      ensures bp == 0 && pos == 0 && !error
    {
      this.input, this.inlength, this.out, this.outsize := input, inlength, out, outsize;
      bp, pos, error := 0, 0, false;
    }

    ghost function B(): seq<Bit> {
      BitsOf(input)
    }

    /** A position far enough from the end for none of the end-of-input tests to fire. */
    ghost predicate Ample(q: nat) {
      q + 16 <= 8 * inlength
    }

    /** read_bit; past the end of the buffer the model reads zeros. */
    method ReadBit() returns (bit: Bit)
      modifies `bp
      ensures bit == BitAt(B(), old(bp)) && bp == old(bp) + 1
    {
      bit := if bp / 8 < |input| then Shr(input[bp / 8], bp % 8) % 2 else 0;
      bp := bp + 1;
    }

    lemma ValSnoc(b: seq<Bit>, p: nat, n: nat)
      ensures Val(b, p, n + 1) == Val(b, p, n) + Pow2(n) * BitAt(b, p + n)
    {
      ValSplit(b, p, n, 1);
      assert Val(b, p + n + 1, 0) == 0;
    }

    method ReadBits(nbits: nat) returns (result: nat)
      modifies `bp
      ensures result == Val(B(), old(bp), nbits) && bp == old(bp) + nbits
    {
      hide BitsOf, Pow2, Or;
      result := 0;
      for i := 0 to nbits
        modifies `bp
        invariant result == Val(B(), old(bp), i) && bp == old(bp) + i
      {
        ValSnoc(B(), old(bp), i);
        var bit := ReadBit();
        ValBound(B(), old(bp), i);
        OrIsSum(bit, result, i);
        result := Or(Pow2(i) * bit, result);
      }
    }

    /**
     * huffman_decode_symbol.  On a table that spells `ls` it returns the symbol coded at the old position;
     * on any input it stops.
     */
    method ReadSymbol(t: HuffmanTree, ghost ls: seq<nat>) returns (sym: nat)
      requires t.Shape() && !error
      modifies `bp, `error
      ensures bp >= old(bp) && (error || old(bp) < bp <= RoundUp(old(bp), 8 * (inlength + 1)))
      ensures !error ==> sym < t.numcodes
      ensures t.Spells(ls) ==>
                var r := DecodeSymbol(ls, B(), old(bp));
                r.Found? && r.next <= 8 * inlength ==> !error && sym == r.symbol && bp == r.next
    {
      hide BitsOf, SpellsFrom, GoodCode, Code, SymbolAt, DecodeSymbol, Val;
      var treepos: nat := 0;
      ghost var p := bp;
      ghost var r := DecodeSymbol(ls, B(), p);
      ghost var limit := RoundUp(bp, 8 * (inlength + 1));
      ghost var on := t.Spells(ls) && r.Found? && r.next <= 8 * inlength;
      if on {
        WalkStart(t, ls, B(), bp, r.symbol);
      }
      while true
        invariant !error && p <= bp <= limit && treepos < t.numcodes
        invariant on ==> bp < r.next && WalkingOn(t, ls, r.symbol, bp - p, treepos)
        decreases limit - bp
      {
        if bp % 8 == 0 && bp / 8 > inlength {
          error := true;
          return 0;
        }
        ghost var d := bp - old(bp);
        if on {
          WalkOn(t, ls, B(), old(bp), r.symbol, d, treepos);
        }
        var bit := ReadBit();
        var ct := t.tree2d[2 * treepos + bit];
        if ct < t.numcodes {
          return ct;
        }
        treepos := ct - t.numcodes;
        if treepos >= t.numcodes {
          error := true;
          return 0;
        }
      }
    }

    /** `d` bits down the code of `s` the walk stands at the node for that prefix. */
    ghost predicate WalkingOn(t: HuffmanTree, ls: seq<nat>, s: nat, d: nat, treepos: nat)
      reads t
    {
      HasCode(ls, s) && d < ls[s] && treepos < |t.labels| && t.labels[treepos] == Step(ls, s, d)
    }

    lemma WalkStart(t: HuffmanTree, ls: seq<nat>, b: seq<Bit>, p: nat, s: nat)
      requires t.Spells(ls) && SymbolAt(ls, b, p, s)
      ensures WalkingOn(t, ls, s, 0, 0)
    {
      hide First, LenCount, CodeValue;
      PrefixRange(ls, s, 0);
      assert Pow2(0) == 1;
    }

    /** The bit read is the next bit of the code, so the table leads to the symbol or to the next node. */
    lemma WalkOn(t: HuffmanTree, ls: seq<nat>, b: seq<Bit>, p: nat, s: nat, d: nat, treepos: nat)
      requires t.Spells(ls) && SymbolAt(ls, b, p, s) && WalkingOn(t, ls, s, d, treepos)
      ensures treepos < t.numcodes && 2 * treepos + BitAt(b, p + d) < t.tree2d.Length
      ensures var ct := t.tree2d[2 * treepos + BitAt(b, p + d)];
              if d + 1 == ls[s] then ct == s && s < t.numcodes
              else ct >= t.numcodes && ct - t.numcodes < t.numcodes && WalkingOn(t, ls, s, d + 1, ct - t.numcodes)
    {
      hide CodeValue, Prefix, GoodCode, SymbolAt, BitAt;
      var tree := t.tree2d[..2 * t.numcodes];
      BitOfCode(ls, b, p, s, d);
      assert t.labels[treepos].depth == d;
      assert SpellsAt(ls, tree, t.labels, s, treepos);
    }

    lemma BitOfCode(ls: seq<nat>, b: seq<Bit>, p: nat, s: nat, d: nat)
      requires GoodCode(ls) && SymbolAt(ls, b, p, s) && d < ls[s]
      ensures BitAt(b, p + d) == StepBit(ls, s, d)
    {
      hide CodeValue, GoodCode;
      MsbBitsAt(CodeValue(ls, s), ls[s], d);
      CodeBit(ls, s, d, 0);
      assert b[p..p + ls[s]][d] == b[p + d];
    }

    lemma {:induction false} MsbBitsAt(v: nat, n: nat, i: nat)
      requires i < n
      ensures MsbBits(v, n)[i] == Shr(v, n - 1 - i) % 2
      decreases n
    {
      if i < n - 1 {
        MsbBitsAt(v / 2, n - 1, i);
        DivDiv(v, 2, Pow2(n - 2 - i));
      } else {
        assert Pow2(0) == 1;
      }
    }

    // ----- get_tree_inflate_dynamic -----

    /** The code lengths read so far, over both arrays. */
    ghost function Lengths(bitlen: array<nat>, bitlenD: array<nat>, hlit: nat, i: nat): (r: seq<nat>)
      requires bitlen.Length == 288 && bitlenD.Length == 32 && hlit <= 288 && i <= hlit + 32
      reads bitlen, bitlenD
      ensures |r| == i
    {
      if i <= hlit then bitlen[..i] else bitlen[..hlit] + bitlenD[..i - hlit]
    }

    /** Lengths stay within 15 and the cells not read yet are zero. */
    ghost predicate Arrays(bitlen: array<nat>, bitlenD: array<nat>, hlit: nat, i: nat): (r: bool)
      reads bitlen, bitlenD
      ensures r ==> bitlen.Length == 288 && bitlenD.Length == 32 && hlit <= 288 && i <= hlit + 32
    {
      && bitlen.Length == 288 && bitlenD.Length == 32 && bitlen != bitlenD && hlit <= 288 && i <= hlit + 32
      && (forall j | 0 <= j < 288 :: bitlen[j] <= 15 && (j >= i || j >= hlit ==> bitlen[j] == 0))
      && (forall j | 0 <= j < 32 :: bitlenD[j] <= 15 && (j + hlit >= i ==> bitlenD[j] == 0))
    }

    /** Lines 384-397, 409-422 and 434-445: the same length several times, while there is room. */
    method RepeatLength(bitlen: array<nat>, bitlenD: array<nat>, hlit: nat, total: nat, start: nat, value: nat, count: nat)
      returns (i: nat)
      requires Arrays(bitlen, bitlenD, hlit, start) && start <= total <= hlit + 32 && value <= 15 && !error
      modifies bitlen, bitlenD, `error
      ensures start <= i <= total && Arrays(bitlen, bitlenD, hlit, i)
      ensures start + count <= total ==> !error
      ensures !error ==> i == start + count
      ensures !error ==> Lengths(bitlen, bitlenD, hlit, i) ==
                         old(Lengths(bitlen, bitlenD, hlit, start)) + Repeat(value, count)
    {
      i := start;
      ghost var before := Lengths(bitlen, bitlenD, hlit, start);
      for n := 0 to count
        modifies bitlen, bitlenD, `error
        invariant !error && i == start + n <= total && Arrays(bitlen, bitlenD, hlit, i)
        invariant Lengths(bitlen, bitlenD, hlit, i) == before + Repeat(value, n)
      {
        if i >= total {
          error := true;
          break;
        }
        ghost var sofar := Lengths(bitlen, bitlenD, hlit, i);
        if i < hlit {
          bitlen[i] := value;
        } else {
          bitlenD[i - hlit] := value;
        }
        i := i + 1;
        assert Lengths(bitlen, bitlenD, hlit, i) == sofar + [value];
        assert Repeat(value, n) + [value] == Repeat(value, n + 1);
      }
    }

    /** The rest of the code lengths is in the stream, well before its end. */
    ghost predicate OpsAhead(t: HuffmanTree, cl: seq<nat>, p: nat, acc: seq<nat>, total: nat)
      reads t, t.tree2d
    {
      t.Spells(cl) && p <= |B()| && ReadOps(cl, B(), p, acc, total).Lens? && Ample(ReadOps(cl, B(), p, acc, total).next)
    }

    /** Lines 354-450: one code length instruction. */
    method ReadLengthOp(t: HuffmanTree, bitlen: array<nat>, bitlenD: array<nat>, hlit: nat, total: nat, start: nat, ghost cl: seq<nat>)
      returns (i: nat)
      requires t.Shape() && t.numcodes == 19 && !error && bitlen != t.tree2d && bitlenD != t.tree2d
      requires Arrays(bitlen, bitlenD, hlit, start) && start < total <= hlit + 32
      modifies bitlen, bitlenD, `bp, `error
      ensures start <= i <= total && Arrays(bitlen, bitlenD, hlit, i) && bp >= old(bp)
      ensures !error ==> i > start
      ensures old(OpsAhead(t, cl, bp, Lengths(bitlen, bitlenD, hlit, start), total)) ==>
                !error && OpsAhead(t, cl, bp, Lengths(bitlen, bitlenD, hlit, i), total) &&
                ReadOps(cl, B(), bp, Lengths(bitlen, bitlenD, hlit, i), total) ==
                ReadOps(cl, B(), old(bp), old(Lengths(bitlen, bitlenD, hlit, start)), total)
    {
      hide BitsOf, Val, ReadOps, Arrays, Repeat, HuffmanTree.Spells, DecodeSymbol;
      ghost var acc, b, p := Lengths(bitlen, bitlenD, hlit, start), B(), bp;
      ghost var on := OpsAhead(t, cl, p, acc, total);
      if on {
        OpStep(cl, b, p, acc, total);
        OpsWithin(cl, b, p, acc, total);
      }
      i := start;
      var code := ReadSymbol(t, cl);
      if error {
        return;
      }
      if code <= 15 {
        i := RepeatLength(bitlen, bitlenD, hlit, total, start, code, 1);
        assert Repeat(code, 1) == [code] by { RepeatOne(code); }
      } else {
        assert code <= 18;  // the tree has 19 symbols, so the last error branch (line 446) is dead
        var base, extra := 3, 2;
        if code == 17 { extra := 3; } else if code == 18 { base, extra := 11, 7; }
        if bp / 8 >= inlength {
          error := true;
          return;
        }
        var replength := ReadBits(extra);
        var value := 0;
        if code == 16 {
          value := Previous(bitlen, bitlenD, hlit, start);
        }
        i := RepeatLength(bitlen, bitlenD, hlit, total, start, value, base + replength);
      }
    }

    lemma RepeatOne(x: nat)
      ensures Repeat(x, 1) == [x]
    {}

    /** When all lengths are read inside the ample part, so is the next instruction. */
    lemma OpsWithin(cl: seq<nat>, b: seq<Bit>, p: nat, acc: seq<nat>, total: nat)
      requires p <= |b| && |acc| < total && ReadOps(cl, b, p, acc, total).Lens?
      ensures ReadOp(cl, b, p).Op? && ReadOp(cl, b, p).next <= ReadOps(cl, b, p, acc, total).next
      ensures DecodeSymbol(cl, b, p).Found? && DecodeSymbol(cl, b, p).next <= ReadOp(cl, b, p).next
    {
      hide Val, OpLengths;
    }

    /**
     * Lines 377-381: the length before position `i`.  With none read yet the original reads outside its
     * array; the value returned here for that case is arbitrary and nothing is claimed about it.
     */
    method Previous(bitlen: array<nat>, bitlenD: array<nat>, hlit: nat, i: nat) returns (value: nat)
      requires Arrays(bitlen, bitlenD, hlit, i)
      ensures value <= 15
      ensures i > 0 ==> value == Lengths(bitlen, bitlenD, hlit, i)[i - 1]
    {
      if i == 0 {
        value := 0;
      } else if i - 1 < hlit {
        value := bitlen[i - 1];
      } else {
        value := bitlenD[i - hlit - 1];
      }
    }

    /** The code length code, in the order ORDER; cells not sent are cleared. */
    method ReadCodeLengthCode(hclen: nat) returns (clens: array<nat>, ghost sent: seq<nat>)
      requires 4 <= hclen <= 19
      modifies `bp
      ensures bp == old(bp) + 3 * hclen && fresh(clens) && clens.Length == 19
      ensures sent == ReadClens(B(), old(bp), hclen) && clens[..] == ClLengths(sent, hclen)
      ensures forall i | 0 <= i < 19 :: clens[i] < 8
    {
      hide BitsOf, Val, Order;
      clens := new nat[19];
      ghost var p := bp;
      sent := ReadClens(B(), p, hclen);
      for i := 0 to 19
        modifies clens, `bp
        invariant bp == p + 3 * (if i < hclen then i else hclen)
        invariant forall k | 0 <= k < i :: clens[Order(k)] == if k < hclen then sent[k] else 0
      {
        OrderDistinctBefore(i);
        if i < hclen {
          ReadClensAt(B(), p, hclen, i);
          var v := ReadBits(3);
          clens[Order(i)] := v;
        } else {
          clens[Order(i)] := 0;
        }
      }
      forall s | 0 <= s < 19 ensures clens[s] == ClLengths(sent, hclen)[s] && clens[s] < 8 {
        OrderOnto(s);
        ClLengthsAt(sent, hclen, OrderIndex(s));
        if OrderIndex(s) < hclen {
          ReadClensAt(B(), p, hclen, OrderIndex(s));
          ValBound(B(), p + 3 * OrderIndex(s), 3);
          assert Pow2(3) == 8;
        }
      }
    }

    function OrderIndex(s: nat): (i: nat)
      requires s < 19
      ensures i < 19
    {
      [3, 17, 15, 13, 11, 9, 7, 5, 4, 6, 8, 10, 12, 14, 16, 18, 0, 1, 2][s]
    }

    lemma OrderOnto(s: nat)
      requires s < 19
      ensures Order(OrderIndex(s)) == s
    {}

    lemma OrderBack(i: nat)
      requires i < 19
      ensures OrderIndex(Order(i)) == i
    {}

    lemma OrderDistinctBefore(i: nat)
      requires i < 19
      ensures forall k: nat | k < i :: Order(k) != Order(i)
    {
      hide OrderIndex, Order;
      forall k: nat | k < i ensures Order(k) != Order(i) {
        OrderBack(k);
        OrderBack(i);
      }
    }

    lemma {:induction false} ClLengthsAt(clens: seq<nat>, n: nat, i: nat)
      requires n <= |clens| && n <= 19 && i < 19
      ensures ClLengths(clens, n)[Order(i)] == if i < n then clens[i] else 0
      decreases n
    {
      hide Order;
      if n > 0 {
        ClLengthsAt(clens, n - 1, i);
        OrderDistinctBefore(n - 1);
        OrderDistinctBefore(i);
      }
    }

    lemma {:induction false} ReadClensAt(b: seq<Bit>, p: nat, n: nat, i: nat)
      requires i < n
      ensures ReadClens(b, p, n)[i] == Val(b, p + 3 * i, 3)
      decreases n
    {
      hide Val;
      if i > 0 {
        ReadClensAt(b, p + 3, n - 1, i - 1);
      }
    }

    /** Lines 322-349: the counts, and the tree of the code length code. */
    method ReadHeader(codelengthcodetree: HuffmanTree) returns (hlit: nat, hdist: nat)
      requires codelengthcodetree.Shape() && codelengthcodetree.numcodes == 19 && codelengthcodetree.maxbitlen == 7 && !error
      modifies `bp, `error, codelengthcodetree, codelengthcodetree.tree2d
      ensures 257 <= hlit <= 288 && 1 <= hdist <= 32 && bp >= old(bp)
      ensures var f := ReadFront(B(), old(bp));
              f.Front? && Ample(f.next) ==>
                !error && hlit == f.hlit && hdist == f.hdist && bp == f.next && codelengthcodetree.Spells(f.cl)
    {
      hide BitsOf, Val, Usable, ClLengths, ReadClens, HuffmanTree.Spells;
      hlit, hdist := 257, 1;
      ghost var p := bp;
      if bp / 8 >= Minus32(inlength, 2) {
        FrontReaches(B(), p);
        error := true;
        return;
      }
      FieldsSmall(B(), p);
      var v := ReadBits(5);
      hlit := v + 257;
      v := ReadBits(5);
      hdist := v + 1;
      v := ReadBits(4);
      var codelengthcode;
      ghost var sent;
      codelengthcode, sent := ReadCodeLengthCode(v + 4);
      assert codelengthcode[..19] == codelengthcode[..];
      var ok := codelengthcodetree.CreateLengths(codelengthcode);
      if !ok {
        error := true;
      }
    }

    lemma FieldsSmall(b: seq<Bit>, p: nat)
      ensures Val(b, p, 5) < 32 && Val(b, p + 5, 5) < 32 && Val(b, p + 10, 4) < 16
    {
      hide Val;
      ValBound(b, p, 5);
      ValBound(b, p + 5, 5);
      ValBound(b, p + 10, 4);
      assert Pow2(5) == 32 && Pow2(4) == 16;
    }

    /** A header that ends in the ample part starts before the last two bytes. */
    lemma FrontReaches(b: seq<Bit>, p: nat)
      ensures ReadFront(b, p).Front? && Ample(ReadFront(b, p).next) ==> p / 8 < Minus32(inlength, 2)
    {
      hide Val, Usable, ClLengths, ReadClens;
    }

    /** Lines 352-451: all code lengths. */
    method ReadLengths(t: HuffmanTree, bitlen: array<nat>, bitlenD: array<nat>, hlit: nat, total: nat, ghost cl: seq<nat>)
      returns (i: nat)
      requires t.Shape() && t.numcodes == 19 && !error && bitlen != t.tree2d && bitlenD != t.tree2d
      requires Arrays(bitlen, bitlenD, hlit, 0) && total <= hlit + 32
      modifies bitlen, bitlenD, `bp, `error
      ensures Arrays(bitlen, bitlenD, hlit, i) && i <= total && bp >= old(bp) && (!error ==> i == total)
      ensures old(OpsAhead(t, cl, bp, Lengths(bitlen, bitlenD, hlit, 0), total)) ==>
                !error && old(ReadOps(cl, B(), bp, Lengths(bitlen, bitlenD, hlit, 0), total)) ==
                          Lens(Lengths(bitlen, bitlenD, hlit, total), bp)
    {
      hide BitsOf, Val, ReadOps, HuffmanTree.Spells, Arrays, Lengths;
      i := 0;
      ghost var on := OpsAhead(t, cl, bp, Lengths(bitlen, bitlenD, hlit, 0), total);
      ghost var goal := if on then ReadOps(cl, B(), bp, Lengths(bitlen, bitlenD, hlit, 0), total) else BadLens;
      while i < total && !error
        modifies bitlen, bitlenD, `bp, `error
        invariant Arrays(bitlen, bitlenD, hlit, i) && i <= total && bp >= old(bp)
        invariant on ==> !error && OpsAhead(t, cl, bp, Lengths(bitlen, bitlenD, hlit, i), total)
        invariant on ==> ReadOps(cl, B(), bp, Lengths(bitlen, bitlenD, hlit, i), total) == goal
        decreases total - i + (if error then 0 else 1)
      {
        i := ReadLengthOp(t, bitlen, bitlenD, hlit, total, i, cl);
      }
      if on {
        OpsEnd(cl, B(), bp, Lengths(bitlen, bitlenD, hlit, i), total);
      }
    }

    /** get_tree_inflate_dynamic: both trees come to spell the codes sent in the stream. */
    method ReadDynamicTrees(codetree: HuffmanTree, codetreeD: HuffmanTree, codelengthcodetree: HuffmanTree)
      requires codelengthcodetree.Shape() && codelengthcodetree.numcodes == 19 && codelengthcodetree.maxbitlen == 7
      requires codetree.Shape() && codetree.numcodes == 288 && codetree.maxbitlen == 15
      requires codetreeD.Shape() && codetreeD.numcodes == 32 && codetreeD.maxbitlen == 15
      requires codetree != codetreeD && codetree.tree2d != codetreeD.tree2d && !error
      modifies `bp, `error, codetree, codetree.tree2d, codetreeD, codetreeD.tree2d
      modifies codelengthcodetree, codelengthcodetree.tree2d
      ensures bp >= old(bp)
      ensures var t := ReadTrees(B(), old(bp));
              t.Trees? && Ample(t.next) ==>
                !error && bp == t.next && |t.ll| <= 288 && |t.dl| <= 32 &&
                codetree.Spells(Padded(t.ll, 288)) && codetreeD.Spells(Padded(t.dl, 32))
    {
      hide BitsOf, Val, Usable, ReadFront, ReadOps, ReadTrees, HuffmanTree.Spells, SplitLengths, Padded, ValidLengths;
      ghost var p, f := bp, ReadFront(B(), bp);
      ghost var on := ReadTrees(B(), p).Trees? && Ample(ReadTrees(B(), p).next);
      if on {
        TreesNeedFront(B(), p);
        TreesStages(B(), p, f);
      }
      var hlit, hdist := ReadHeader(codelengthcodetree);
      if error {
        return;
      }
      var bitlen := new nat[288](_ => 0);
      var bitlenD := new nat[32](_ => 0);
      ghost var total := hlit + hdist;
      assert Lengths(bitlen, bitlenD, hlit, 0) == [];
      var i := ReadLengths(codelengthcodetree, bitlen, bitlenD, hlit, hlit + hdist, if on then f.cl else []);
      if error {
        return;
      }
      if bitlen[256] == 0 {
        error := true;
      }
      if on {
        SplitPadded(bitlen, bitlenD, hlit, hdist, bp);
      }
      if !error {
        var ok := codetree.CreateLengths(bitlen);
        if ok {
          ok := codetreeD.CreateLengths(bitlenD);
        }
        error := !ok;
      }
    }

    lemma OpsEnd(cl: seq<nat>, b: seq<Bit>, p: nat, acc: seq<nat>, total: nat)
      requires p <= |b| && |acc| == total
      ensures ReadOps(cl, b, p, acc, total) == Lens(acc, p)
    {}

    /** The two arrays hold the two halves of the lengths, padded with zeros. */
    lemma SplitPadded(bitlen: array<nat>, bitlenD: array<nat>, hlit: nat, hdist: nat, q: nat)
      requires 257 <= hlit <= 288 && 1 <= hdist <= 32 && Arrays(bitlen, bitlenD, hlit, hlit + hdist)
      requires SplitLengths(Lens(Lengths(bitlen, bitlenD, hlit, hlit + hdist), q), hlit).Trees?
      ensures var t := SplitLengths(Lens(Lengths(bitlen, bitlenD, hlit, hlit + hdist), q), hlit);
              && bitlen[256] > 0 && |t.ll| == hlit && |t.dl| == hdist
              && bitlen[..288] == Padded(t.ll, 288) && bitlenD[..32] == Padded(t.dl, 32)
              && Usable(Padded(t.ll, 288)) && Usable(Padded(t.dl, 32))
    {
      hide Usable;
      var all := Lengths(bitlen, bitlenD, hlit, hlit + hdist);
      assert all[..hlit] == bitlen[..hlit] && all[hlit..] == bitlenD[..hdist];
      assert all[256] == bitlen[256];
      PaddedUsable(all[..hlit], 288);
      PaddedUsable(all[hlit..], 32);
    }

    // ----- inflate_huffman -----

    ghost predicate Buffer()
      reads `pos
    {
      pos <= outsize <= out.Length
    }

    ghost function Written(): seq<Byte>
      requires Buffer()
      reads `pos, out
    {
      out[..pos]
    }

    /** Reading outside the buffer, possible only for distances the output does not reach back to, is arbitrary. */
    function Peek(k: nat): Byte
      reads out
    {
      if k < out.Length then out[k] else 0
    }

    /** Lines 551-567: the copy pointer wraps back to the start of the match instead of running on. */
    method CopyBack(length: nat, distance: nat)
      requires Buffer() && !error && distance >= 1
      modifies out, `pos, `error
      ensures Buffer() && error == (old(pos) + length >= outsize)
      ensures distance <= old(pos) && !error ==> Written() == Copy(old(Written()), length, distance)
    {
      var start := pos;
      var backward: nat := Minus32(start, distance);
      if pos + length >= outsize {
        error := true;
        return;
      }
      ghost var before := Written();
      assert 0 % distance == 0 by { ModZero(distance); }
      for forward := 0 to length
        modifies out, `pos
        invariant pos == start + forward && out[..start] == before
        invariant distance <= start ==> backward == start - distance + forward % distance
        invariant distance <= start ==>
                    forall j | start <= j < pos :: out[j] == before[start - distance + (j - start) % distance]
      {
        ModNext(forward, distance);
        ModBound(forward, distance);
        out[pos] := Peek(backward);
        pos := pos + 1;
        backward := backward + 1;
        if backward >= start {
          backward := Minus32(start, distance);
        }
      }
      if distance <= start {
        forall j | start <= j < pos ensures out[j] == Copy(before, length, distance)[j] {
          CopyPeriodic(before, length, distance, j - start);
        }
        assert Written() == Copy(before, length, distance);
      }
    }

    lemma ModZero(d: nat)
      requires d > 0
      ensures 0 % d == 0
    {}

    lemma ModBound(k: nat, d: nat)
      requires d > 0
      ensures 0 <= k % d < d
    {}

    /** The two trees spell the codes of the block, and its tokens from `p` on end in the ample part. */
    ghost predicate BlockAhead(t: HuffmanTree, tD: HuffmanTree, ll: seq<nat>, dl: seq<nat>, p: nat, o: seq<Byte>)
      reads t, t.tree2d, tD, tD.tree2d
    {
      && |ll| <= 288 && |dl| <= 32 && ValidLengths(ll) && ValidLengths(dl) && Usable(ll) && Usable(dl)
      && t.Spells(Padded(ll, 288)) && tD.Spells(Padded(dl, 32))
      && TokensAhead(ll, dl, p, o)
    }

    ghost predicate TokensAhead(ll: seq<nat>, dl: seq<nat>, p: nat, o: seq<Byte>) {
      p <= |B()| && ReadTokens(ll, dl, B(), p, o).Done? && Ample(ReadTokens(ll, dl, B(), p, o).next)
    }

    /** A match whose fields start at `p` and end in the ample part. */
    ghost predicate MatchAhead(tD: HuffmanTree, dl: seq<nat>, p: nat, l: nat)
      requires l < 29
      reads tD, tD.tree2d
    {
      && |dl| <= 32 && ValidLengths(dl) && Usable(dl) && tD.Spells(Padded(dl, 32))
      && ReadMatch(dl, B(), p, l).Tok? && Ample(ReadMatch(dl, B(), p, l).next)
    }

    /** Lines 510-549: the rest of a match after its length code. */
    method ReadMatchFields(codetreeD: HuffmanTree, code: nat, ghost dl: seq<nat>) returns (length: nat, distance: nat)
      requires !error && codetreeD.Shape() && codetreeD.numcodes == 32 && 257 <= code <= 285
      modifies `bp, `error
      ensures bp >= old(bp) && distance >= 1
      ensures error || bp <= 8 * (inlength + 2)
      ensures old(MatchAhead(codetreeD, dl, bp, code - 257)) ==>
                var m := ReadMatch(dl, B(), old(bp), code - 257);
                !error && bp == m.next && length == MatchLength(m.token) && distance == MatchDist(m.token)
    {
      hide BitsOf, Val, Usable, HuffmanTree.Spells, Padded, ReadMatch, LenBits, LenBase, DistBits, DistBase, ValidLengths, DecodeSymbol;
      ghost var b, p, l := B(), bp, code - 257;
      if MatchAhead(codetreeD, dl, p, l) {
        MatchWithin(dl, b, p, l);
        PaddedDecode(dl, 32, b, p + LenBits(l));
      }
      length, distance := 0, 1;
      if bp / 8 >= inlength {
        error := true;
        return;
      }
      length := ReadBits(LenBits(code - 257));
      length := length + LenBase(code - 257);
      var codeD := ReadSymbol(codetreeD, if |dl| <= 32 then Padded(dl, 32) else dl);
      if error {
        return;
      }
      if codeD > 29 {
        error := true;
        return;
      }
      if bp / 8 >= inlength {
        error := true;
        return;
      }
      distance := ReadBits(DistBits(codeD));
      distance := distance + DistBase(codeD);
    }

    /** One round of the loop of inflate_huffman. */
    method InflateToken(codetree: HuffmanTree, codetreeD: HuffmanTree, ghost ll: seq<nat>, ghost dl: seq<nat>)
      returns (done: bool)
      requires Buffer() && !error
      requires codetree.Shape() && codetree.numcodes == 288 && codetreeD.Shape() && codetreeD.numcodes == 32
      modifies out, `pos, `bp, `error
      ensures Buffer() && bp >= old(bp)
      ensures !error ==> old(bp) < bp <= RoundUp(old(bp), 8 * (inlength + 2))
      ensures old(BlockAhead(codetree, codetreeD, ll, dl, bp, Written())) ==>
                var r := ReadTokens(ll, dl, B(), old(bp), old(Written()));
                var fits := TokensFit(ll, dl, B(), old(bp), old(Written()), outsize);
                && (error ==> !fits)
                && (!error && done ==> fits && r == Done(Written(), bp))
                && (!error && !done ==> TokensAhead(ll, dl, bp, Written()) && r == ReadTokens(ll, dl, B(), bp, Written()) &&
                                        fits == TokensFit(ll, dl, B(), bp, Written(), outsize))
    {
      hide BitsOf, Val, Usable, HuffmanTree.Spells, Padded, ReadTokens, TokensFit, ReadMatch, DecodeSymbol, Copy, ValidLengths;
      ghost var b, p, o := B(), bp, Written();
      ghost var on := BlockAhead(codetree, codetreeD, ll, dl, p, o);
      if on {
        TokensWithin(ll, dl, b, p, o);
        TokenStep(ll, dl, b, p, o);
        FitStep(ll, dl, b, p, o, outsize);
        PaddedDecode(ll, 288, b, p);
      }
      done := false;
      var code := ReadSymbol(codetree, if |ll| <= 288 then Padded(ll, 288) else ll);
      if error {
        return;
      }
      if code == 256 {
        done := true;
      } else if code <= 255 {
        if pos >= outsize {
          error := true;
          return;
        }
        out[pos] := code;
        pos := pos + 1;
        assert Written() == o + [code];
      } else if 257 <= code <= 285 {
        if on {
          FitMatch(ll, dl, b, p, o, outsize, bp, code - 257);
        }
        var length, distance := ReadMatchFields(codetreeD, code, dl);
        if error {
          return;
        }
        CopyBack(length, distance);
      }
    }

    /** The loop of inflate_huffman (lines 492-569). */
    method InflateTokens(codetree: HuffmanTree, codetreeD: HuffmanTree, ghost ll: seq<nat>, ghost dl: seq<nat>)
      requires Buffer() && !error
      requires codetree.Shape() && codetree.numcodes == 288 && codetreeD.Shape() && codetreeD.numcodes == 32
      modifies out, `pos, `bp, `error
      ensures Buffer() && bp >= old(bp)
      ensures old(BlockAhead(codetree, codetreeD, ll, dl, bp, Written())) ==>
                && error == !TokensFit(ll, dl, B(), old(bp), old(Written()), outsize)
                && (!error ==> ReadTokens(ll, dl, B(), old(bp), old(Written())) == Done(Written(), bp))
    {
      hide BitsOf, Usable, HuffmanTree.Spells, Padded, ReadTokens, TokensFit, ValidLengths;
      ghost var on := BlockAhead(codetree, codetreeD, ll, dl, bp, Written());
      ghost var goal := if on then ReadTokens(ll, dl, B(), bp, Written()) else Invalid;
      ghost var fits := on && TokensFit(ll, dl, B(), bp, Written(), outsize);
      ghost var limit := RoundUp(bp, 8 * (inlength + 2));
      var done := false;
      while !done
        modifies out, `pos, `bp, `error
        invariant Buffer() && !error && old(bp) <= bp <= limit
        invariant on && !done ==> BlockAhead(codetree, codetreeD, ll, dl, bp, Written())
        invariant on && !done ==> ReadTokens(ll, dl, B(), bp, Written()) == goal
        invariant on && !done ==> TokensFit(ll, dl, B(), bp, Written(), outsize) == fits
        invariant on && done ==> goal == Done(Written(), bp) && fits
        decreases limit - bp
      {
        RoundUpStep(old(bp), bp, 8 * (inlength + 2));
        done := InflateToken(codetree, codetreeD, ll, dl);
        if error {
          return;
        }
      }
    }

    lemma RoundUpStep(p: nat, q: nat, least: nat)
      requires p <= q <= RoundUp(p, least) && least % 8 == 0
      ensures RoundUp(q, least) <= RoundUp(p, least)
    {
      var r := RoundUp(p, least);
      assert r == 8 * (r / 8);
      assert (q + 7) / 8 <= r / 8;
    }

    // ----- blocks and streams -----

    /** One byte of the input; past its end the model reads zeros. */
    function InputByte(k: nat): Byte {
      if k < |input| then input[k] else 0
    }

    lemma InputField(k: nat)
      ensures Val(B(), 8 * k, 16) == InputByte(k) as nat + 256 * (InputByte(k + 1) as nat)
    {
      hide Val, BitsOf;
      ValSplit(B(), 8 * k, 8, 8);
      SourceByte(input, k);
      SourceByte(input, k + 1);
      assert Pow2(8) == 256;
    }

    function InputSlice(k: nat, n: nat): (r: seq<Byte>)
      ensures |r| == n
    {
      seq<Byte>(n, i requires 0 <= i < n => InputByte(k + i))
    }

    lemma {:induction false} InputBytes(k: nat, n: nat)
      ensures BytesAt(B(), 8 * k, n) == InputSlice(k, n)
      decreases n
    {
      hide Val, BitsOf, InputByte;
      if n > 0 {
        InputBytes(k + 1, n - 1);
        SourceByte(input, k);
        assert InputByte(k) == Val(B(), 8 * k, 8) by { InputByteIs(k); }
        assert InputSlice(k, n) == [InputByte(k)] + InputSlice(k + 1, n - 1);
      }
    }

    lemma InputByteIs(k: nat)
      ensures InputByte(k) == Val(B(), 8 * k, 8)
    {
      SourceByte(input, k);
    }

    /** Lines 611-613. */
    method CopyInput(first: nat, len: nat)
      requires Buffer() && pos + len <= outsize
      modifies out, `pos
      ensures Buffer() && Written() == old(Written()) + InputSlice(first, len)
    {
      for n := 0 to len
        modifies out, `pos
        invariant pos == old(pos) + n && Buffer()
        invariant Written() == old(Written()) + InputSlice(first, n)
      {
        ghost var sofar := Written();
        out[pos] := InputByte(first + n);
        pos := pos + 1;
        assert Written() == sofar + [InputByte(first + n)];
        assert InputSlice(first, n + 1) == InputSlice(first, n) + [InputByte(first + n)];
      }
    }

    /** inflate_uncompressed. */
    method InflateUncompressed()
      requires Buffer() && !error
      modifies out, `pos, `bp, `error
      ensures Buffer() && bp >= old(bp)
      ensures var r := ReadStored(B(), old(bp), old(Written()));
              r.Done? && Ample(r.next) ==>
                error == (|r.out| >= outsize) && (!error ==> r == Done(Written(), bp))
    {
      hide BitsOf, Val, BytesAt, InputSlice, InputByte;
      ghost var o, r := Written(), ReadStored(B(), bp, Written());
      ghost var start := bp;
      while bp % 8 != 0
        modifies `bp
        invariant start <= bp <= Aligned(start)
        decreases Aligned(start) - bp
      {
        bp := bp + 1;
      }
      var p := bp / 8;
      if p >= Minus32(inlength, 4) {
        error := true;
        return;
      }
      InputField(p);
      InputField(p + 2);
      var lo: nat, hi: nat := InputByte(p), InputByte(p + 1);
      var len: nat := lo + 256 * hi;
      lo, hi := InputByte(p + 2), InputByte(p + 3);
      var nlen: nat := lo + 256 * hi;
      p := p + 4;
      if len + nlen != 65535 {
        error := true;
        return;
      }
      InputBytes(p, len);
      if pos + len >= outsize {
        error := true;
        return;
      }
      if p + len > inlength {
        error := true;
        return;
      }
      CopyInput(p, len);
      p := p + len;
      bp := p * 8;
    }

    /** The fixed tables of upng.c (lines 147-192), given as trees. */
    ghost predicate FixedTrees(t: HuffmanTree, tD: HuffmanTree)
      reads t, t.tree2d, tD, tD.tree2d
    {
      t.numcodes == 288 && tD.numcodes == 32 && t.Spells(FixedLit()) && tD.Spells(FixedDist())
    }

    /** inflate_huffman with btype 1. */
    method InflateFixed(t: HuffmanTree, tD: HuffmanTree)
      requires Buffer() && !error && FixedTrees(t, tD)
      modifies out, `pos, `bp, `error
      ensures Buffer() && bp >= old(bp)
      ensures old(TokensAhead(FixedLit(), FixedDist(), bp, Written())) ==>
                && error == !TokensFit(FixedLit(), FixedDist(), B(), old(bp), old(Written()), outsize)
                && (!error ==> ReadTokens(FixedLit(), FixedDist(), B(), old(bp), old(Written())) == Done(Written(), bp))
    {
      hide BitsOf, Val, ReadTokens, TokensFit, FixedLit, FixedDist, Usable;
      FixedLitUsable();
      FixedDistUsable();
      PaddedSelf(FixedLit());
      PaddedSelf(FixedDist());
      InflateTokens(t, tD, FixedLit(), FixedDist());
    }

    /** inflate_huffman with btype 2. */
    method InflateDynamic()
      requires Buffer() && !error
      modifies out, `pos, `bp, `error
      ensures Buffer() && bp >= old(bp)
      ensures var t := ReadTrees(B(), old(bp));
              t.Trees? && old(TokensAhead(t.ll, t.dl, t.next, Written())) ==>
                && error == !TokensFit(t.ll, t.dl, B(), t.next, old(Written()), outsize)
                && (!error ==> ReadTokens(t.ll, t.dl, B(), t.next, old(Written())) == Done(Written(), bp))
    {
      hide BitsOf, Val, ReadTokens, TokensFit, Usable, ReadTrees, HuffmanTree.Spells;
      var codetreeBuffer := new nat[576];
      var codetreeDBuffer := new nat[64];
      var codelengthcodetreeBuffer := new nat[64];
      var codetree := new HuffmanTree(codetreeBuffer, 288, 15);
      var codetreeD := new HuffmanTree(codetreeDBuffer, 32, 15);
      var codelengthcodetree := new HuffmanTree(codelengthcodetreeBuffer, 19, 7);
      ghost var t := ReadTrees(B(), bp);
      if t.Trees? {
        TreesUsable(B(), bp);
      }
      ReadDynamicTrees(codetree, codetreeD, codelengthcodetree);
      if !error {
        InflateTokens(codetree, codetreeD, if t.Trees? then t.ll else [], if t.Trees? then t.dl else []);
      }
    }

    lemma TreesUsable(b: seq<Bit>, p: nat)
      requires ReadTrees(b, p).Trees?
      ensures var t := ReadTrees(b, p);
              && |t.ll| <= 286 && |t.dl| <= 30 && ValidLengths(t.ll) && ValidLengths(t.dl)
              && Usable(t.ll) && Usable(t.dl)
    {
      hide ReadTrees, Usable, Header.Valid, ValidLengths;
      var h := TreesSound(b, p);
      HeaderGood(h);
      HeaderParts(h);
    }

    lemma HeaderParts(h: Header)
      requires h.Valid() && GoodCode(h.LitLengths()) && GoodCode(h.DistLengths())
      ensures |h.LitLengths()| <= 286 && |h.DistLengths()| <= 30
      ensures ValidLengths(h.LitLengths()) && ValidLengths(h.DistLengths())
      ensures Usable(h.LitLengths()) && Usable(h.DistLengths())
    {
      hide Usable, ValidOps, ApplyOps, Fits;
    }

    /** A stream from `p` on that ends in the ample part. */
    ghost predicate StreamAhead(p: nat, o: seq<Byte>) {
      p <= |B()| && ReadStream(B(), p, o).Done? && Ample(ReadStream(B(), p, o).next)
    }

    ghost predicate BlockAheadAt(p: nat, o: seq<Byte>) {
      p + 3 <= |B()| && ReadBlock(B(), p, o).Done? && Ample(ReadBlock(B(), p, o).next)
    }

    /** Lines 629-652: one block. */
    method InflateBlock(t: HuffmanTree, tD: HuffmanTree) returns (done: nat)
      requires Buffer() && !error && FixedTrees(t, tD)
      modifies out, `pos, `bp, `error
      ensures Buffer() && (error || bp > old(bp))
      ensures !error ==> old(bp) / 8 < inlength
      ensures old(BlockAheadAt(bp, Written())) ==>
                && error == !BlockFits(B(), old(bp), old(Written()), outsize)
                && (!error ==> ReadBlock(B(), old(bp), old(Written())) == Done(Written(), bp) && done == B()[old(bp)])
    {
      hide BitsOf, Val, ReadTokens, TokensFit, ReadTrees, ReadStored, FixedLit, FixedDist, HuffmanTree.Spells;
      done := 0;
      if bp / 8 >= inlength {
        error := true;
        return;
      }
      ghost var p := bp;
      done := ReadBit();
      var lo := ReadBit();
      var hi := ReadBit();
      TwoBitsOf(B(), p + 1);
      if lo == 1 && hi == 1 {
        error := true;
      } else if lo == 0 && hi == 0 {
        InflateUncompressed();
      } else if lo == 1 {
        InflateFixed(t, tD);
      } else {
        InflateDynamic();
      }
    }

    lemma TwoBitsOf(b: seq<Bit>, p: nat)
      ensures Val(b, p, 2) == BitAt(b, p) as nat + 2 * (BitAt(b, p + 1) as nat)
    {
      assert Val(b, p, 2) == BitAt(b, p) as nat + 2 * Val(b, p + 1, 1);
      assert Val(b, p + 1, 1) == BitAt(b, p + 1) as nat + 2 * Val(b, p + 2, 0);
    }

    lemma StreamWithin(p: nat, o: seq<Byte>)
      requires StreamAhead(p, o)
      ensures BlockAheadAt(p, o)
      ensures var r := ReadBlock(B(), p, o);
              && (B()[p] == 1 ==> ReadStream(B(), p, o) == r && StreamFits(B(), p, o, outsize) == BlockFits(B(), p, o, outsize))
              && (B()[p] != 1 ==> StreamAhead(r.next, r.out))
              && (B()[p] != 1 ==> ReadStream(B(), p, o) == ReadStream(B(), r.next, r.out))
              && (B()[p] != 1 ==>
                    StreamFits(B(), p, o, outsize) ==
                    (BlockFits(B(), p, o, outsize) && StreamFits(B(), r.next, r.out, outsize)))
    {
      hide BitsOf, ReadBlock, BlockFits;
    }

    /** uz_inflate_data: on a valid stream it succeeds exactly when every match and block has room. */
    method InflateData(t: HuffmanTree, tD: HuffmanTree)
      requires Buffer() && !error && bp == 0 && pos == 0 && FixedTrees(t, tD)
      modifies out, `pos, `bp, `error
      ensures Buffer()
      ensures StreamAhead(0, []) ==>
                && error == !StreamFits(B(), 0, [], outsize)
                && (!error ==> ReadStream(B(), 0, []) == Done(Written(), bp))
    {
      hide BitsOf, ReadStream, StreamFits, BlockFits, ReadBlock, HuffmanTree.Spells;
      var done := 0;
      ghost var on := StreamAhead(0, []);
      assert Written() == [];
      while done == 0
        modifies out, `pos, `bp, `error
        invariant Buffer() && !error && FixedTrees(t, tD)
        invariant on && done == 0 ==> StreamAhead(bp, Written()) && ReadStream(B(), bp, Written()) == ReadStream(B(), 0, [])
        invariant on && done == 0 ==> StreamFits(B(), bp, Written(), outsize) == StreamFits(B(), 0, [], outsize)
        invariant on && done != 0 ==> ReadStream(B(), 0, []) == Done(Written(), bp) && StreamFits(B(), 0, [], outsize)
        decreases 8 * inlength - bp, done == 0
      {
        if on {
          StreamWithin(bp, Written());
        }
        done := InflateBlock(t, tD);
        if error {
          return;
        }
      }
    }
  }

  /** uz_inflate_data on a fresh buffer; `fixedTree` and `fixedTreeD` are the static tables of upng.c. */
  method Inflate(out: array<Byte>, outsize: U32, input: seq<Byte>, inlength: U32, fixedTree: HuffmanTree, fixedTreeD: HuffmanTree)
    returns (ok: bool, pos: nat)
    requires outsize <= out.Length
    requires fixedTree.numcodes == 288 && fixedTree.Spells(FixedLit())
    requires fixedTreeD.numcodes == 32 && fixedTreeD.Spells(FixedDist())
    modifies out
    ensures pos <= outsize
    ensures forall s :: Encodes(input, s) && |StreamBits(s, 0, [])| + 16 <= 8 * inlength ==>
              && ok == (|Expand(s, 0, [])| < outsize || (|Expand(s, 0, [])| == outsize && LiteralLast(s)))
              && (ok ==> out[..pos] == Expand(s, 0, []))
  {
    hide BitsOf, ReadStream, ValidStream, Expand, StreamBits, At, StreamFits, StreamRoomy, LiteralLast;
    var d := new Inflater(input, inlength, out, outsize);
    d.InflateData(fixedTree, fixedTreeD);
    ok, pos := !d.error, d.pos;
    forall s | Encodes(input, s)
      ensures ReadStream(BitsOf(input), 0, []) == Done(Expand(s, 0, []), |StreamBits(s, 0, [])|)
    {
      StreamComplete(BitsOf(input), 0, [], s);
    }
    forall s | Encodes(input, s)
      ensures StreamFits(BitsOf(input), 0, [], outsize) ==
              (|Expand(s, 0, [])| < outsize || (|Expand(s, 0, [])| == outsize && LiteralLast(s)))
    {
      StreamFitIs(BitsOf(input), 0, [], s, outsize);
      StreamExact(s, 0, [], outsize);
      StreamComplete(BitsOf(input), 0, [], s);
      StreamFitBound(BitsOf(input), 0, [], outsize);
    }
    if ReadStream(BitsOf(input), 0, []).Done? {
      StreamFitBound(BitsOf(input), 0, [], outsize);
    }
  }
}
