/** The inflater of tinflate.c: bit reader, symbol decoder, block decoders and tinf_uncompress. */
module Tinf {
  import opened Bits
  import opened Canonical
  import opened Deflate
  import opened Decoder
  import opened Inverse
  import opened Streams
  import opened TinfTree
  import opened FixedCodes

  /** read_le16. */
  function ReadLe16(s: seq<Byte>, k: nat): (r: nat)
    requires k + 1 < |s|
    ensures r < 65536
  {
    var lo: nat, hi: nat := s[k], s[k + 1];
    lo + 256 * hi
  }

  /** One getbits call: the low bits of the tag are the next bits of the stream, the rest stays. */
  lemma TakeBits(b: seq<Bit>, pos: nat, count: nat, num: nat)
    requires num <= count
    ensures Val(b, pos, count) % Pow2(num) == Val(b, pos, num)
    ensures Val(b, pos, count) / Pow2(num) == Val(b, pos + num, count - num)
  {
    ValSplit(b, pos, num, count - num);
    ValBound(b, pos, num);
    DivModUnique(Val(b, pos, count), Pow2(num), Val(b, pos + num, count - num), Val(b, pos, num));
  }

  /** tag | (byte << count). */
  function PutAbove(tag: nat, byte: Byte, count: nat): nat {
    Or(Pow2(count) * byte, tag)
  }

  /** One refill: the next source byte lands above the bits already held. */
  lemma PutByte(src: seq<Byte>, pos: nat, count: nat, k: nat)
    requires pos + count == 8 * k
    ensures Val(BitsOf(src), pos, count + 8) ==
            if k < |src| then PutAbove(Val(BitsOf(src), pos, count), src[k], count) else Val(BitsOf(src), pos, count)
  {
    hide Val, BitsOf, Or, Pow2;
    ValSplit(BitsOf(src), pos, count, 8);
    SourceByte(src, k);
    ValBound(BitsOf(src), pos, count);
    if k < |src| {
      OrIsSum(src[k], Val(BitsOf(src), pos, count), count);
    }
  }

  lemma TagRoom(b: seq<Bit>, pos: nat, count: nat)
    requires count <= 32
    ensures Val(b, pos, count) < 0x1_0000_0000
  {
    ValBound(b, pos, count);
    Pow2Mono(count, 32);
    Pow2Add(16, 16);
    Pow2Of16();
  }

  /** Decoding in a stream padded with zeros agrees with decoding in the stream itself. */
  lemma PaddedSymbol(ls: seq<nat>, b: seq<Bit>, p: nat, s: nat)
    requires GoodCode(ls) && HasCode(ls, s) && MsbVal(b, p, ls[s]) == CodeValue(ls, s)
    ensures DecodeSymbol(ls, b, p) == if p + ls[s] <= |b| then Found(s, p + ls[s]) else NotFound
  {
    SymbolAtValue(ls, b, p, s);
    var r := DecodeSymbol(ls, b, p);
    if r.Found? {
      SymbolAtValue(ls, b, p, r.symbol);
      CodeInRange(ls, s);
      CodeInRange(ls, r.symbol);
      if ls[s] <= ls[r.symbol] {
        SameValueSameSymbol(ls, b, p, s, r.symbol);
      } else {
        SameValueSameSymbol(ls, b, p, r.symbol, s);
      }
    }
  }

  /** In a one-symbol code the bit 1 is no code. */
  lemma SingleMiss(ls: seq<nat>, b: seq<Bit>, p: nat)
    requires ValidLengths(ls) && Single(ls) && BitAt(b, p) == 1
    ensures DecodeSymbol(ls, b, p) == NotFound
  {
    var r := DecodeSymbol(ls, b, p);
    assert MsbVal(b, p, 1) == 2 * MsbVal(b, p, 0) + BitAt(b, p) == 1;
    if r.Found? {
      UsableGood(ls);
      SingleIndex(ls, r.symbol);
      SymbolAtValue(ls, b, p, r.symbol);
      assert false;
    }
  }

  class Data {
    const source: seq<Byte>
    var src: nat            // d->source, as an index
    var tag: nat
    var bitcount: nat
    var overflow: bool
    const dest: array<Byte>
    const destEnd: nat
    var destPos: nat        // d->dest, as an index
    const ltree: Tree
    const dtree: Tree
    ghost var pos: nat      // bits consumed so far
    ghost var taken: nat    // bytes shifted into the tag so far, counting the zero bytes past the end

    constructor (dest: array<Byte>, destLen: nat, source: seq<Byte>)
      requires destLen <= dest.Length
      ensures this.source == source && this.dest == dest && destEnd == destLen && destPos == 0
      ensures pos == 0 && Reader() && bitcount == 0 && Sound()
      ensures fresh(ltree) && fresh(dtree)
      ensures fresh(ltree.counts) && fresh(ltree.symbols) && fresh(dtree.counts) && fresh(dtree.symbols)
    {
      this.source := source;
      src, tag, bitcount, overflow := 0, 0, 0, false;
      this.dest, destEnd, destPos := dest, destLen, 0;
      ltree := new Tree();
      dtree := new Tree();
      pos, taken := 0, 0;
    }

    /** The tag holds exactly the unread bits of the bytes taken. */
    ghost predicate Reader()
      reads `src, `tag, `bitcount, `overflow, `pos, `taken
    {
      && src <= |source|
      && pos + bitcount == 8 * taken
      && tag == Val(BitsOf(source), pos, bitcount)
      && (if overflow then src == |source| < taken else taken == src)
    }

    ghost predicate Between()
      reads `src, `tag, `bitcount, `overflow, `pos, `taken
    {
      Reader() && bitcount <= 7
    }

    ghost predicate Sound() {
      && ltree.Shape() && dtree.Shape() && ltree != dtree
      && ltree.counts != dtree.counts && ltree.counts != dtree.symbols
      && ltree.symbols != dtree.counts && ltree.symbols != dtree.symbols
      && destEnd <= dest.Length
    }

    ghost function Out(): seq<Byte>
      requires destPos <= dest.Length
      reads this, dest
    {
      dest[..destPos]
    }

    /** The overflow flag is set exactly when a bit past the end of the source has been consumed. */
    lemma OverflowMeansPastEnd()
      requires Between()
      ensures overflow <==> pos > |BitsOf(source)|
    {}

    method Refill(num: nat)
      requires Reader() && bitcount <= 7 && num <= 25
      modifies `src, `tag, `bitcount, `overflow, `taken
      ensures Reader() && bitcount <= 32 && tag < 0x1_0000_0000
      ensures num <= bitcount && (num > 0 ==> bitcount < num + 8) && (num <= old(bitcount) ==> bitcount == old(bitcount))
    {
      hide BitsOf, Val, Pow2, PutAbove;
      while bitcount < num
        invariant Reader() && old(bitcount) <= bitcount
        invariant bitcount == old(bitcount) || bitcount < num + 8
      {
        PutByte(source, pos, bitcount, taken);
        if src != |source| {
          tag := PutAbove(tag, source[src], bitcount);
          src := src + 1;
        } else {
          overflow := true;
        }
        bitcount := bitcount + 8;
        taken := taken + 1;
      }
      TagRoom(BitsOf(source), pos, bitcount);
    }

    method GetBitsNoRefill(num: nat) returns (bits: nat)
      requires Reader() && num <= bitcount
      modifies `tag, `bitcount, `pos
      ensures Reader() && bits == Val(BitsOf(source), old(pos), num)
      ensures pos == old(pos) + num && bitcount == old(bitcount) - num
    {
      TakeBits(BitsOf(source), pos, bitcount, num);
      bits := tag % Pow2(num);
      tag := tag / Pow2(num);
      bitcount := bitcount - num;
      pos := pos + num;
    }

    /** Successive calls return consecutive bits of the source, zeros past its end. */
    method GetBits(num: nat) returns (bits: nat)
      requires Between() && num <= 25
      modifies `src, `tag, `bitcount, `overflow, `taken, `pos
      ensures Between() && bits == Val(BitsOf(source), old(pos), num) && pos == old(pos) + num
    {
      Refill(num);
      bits := GetBitsNoRefill(num);
    }

    method GetBitsBase(num: nat, base: nat) returns (r: nat)
      requires Between() && num <= 25
      modifies `src, `tag, `bitcount, `overflow, `taken, `pos
      ensures Between() && r == base + Val(BitsOf(source), old(pos), num) && pos == old(pos) + num
    {
      if num != 0 {
        var v := GetBits(num);
        r := base + v;
      } else {
        r := base;
      }
    }

    /**
     * tinf_decode_symbol.  The result is the symbol coded at the old position; the one exception is the
     * unused code of a single-symbol tree, which yields a symbol above maxSym.
     */
    method ReadSymbol(t: Tree, ghost ls: seq<nat>, ghost cap: nat) returns (sym: nat)
      requires Between() && t.Holds(ls, cap) && CodeCount(ls) > 0
      modifies `src, `tag, `bitcount, `overflow, `taken, `pos
      ensures Between() && old(pos) < pos <= old(pos) + 15
      ensures HasCode(ls, sym) ||
              (Single(ls) && sym == t.maxSym + 1 && DecodeSymbol(ls, BitsOf(source), old(pos)) == NotFound)
      ensures HasCode(ls, sym) ==> pos == old(pos) + ls[sym]
      ensures HasCode(ls, sym) ==> DecodeSymbol(ls, BitsOf(source), old(pos)) ==
                                   if pos <= |BitsOf(source)| then Found(sym, pos) else NotFound
    {
      hide BitsOf, Tree.Holds, Tree.CountsFor, Val, Between, Usable, CodeCount, LenCount, DecodeSymbol, ValidLengths;
      ghost var b, p := BitsOf(source), pos;
      var base, offs, len := 0, 0, 1;
      NoCount(ls);
      while true
        invariant 1 <= len <= 15 && Between() && pos == p + len - 1
        invariant base == Shorter(ls, len)
        invariant 2 * offs == 2 * MsbVal(b, p, len - 1) - First(ls, len)
        invariant len > 1 ==> !Single(ls)
        decreases 15 - len
      {
        var bit := GetBits(1);
        assert bit == BitAt(b, p + len - 1) by { OneBit(b, p + len - 1); }
        offs := 2 * offs + bit;
        assert offs == MsbVal(b, p, len) - First(ls, len);
        CountAt(t, ls, cap, len);
        if offs < t.counts[len] {
          break;
        }
        base := base + t.counts[len];
        offs := offs - t.counts[len];
        DeeperThan(ls, b, p, len);
        len := len + 1;
      }
      sym := Finish(t, ls, cap, base + offs, len, p);
    }

    /** The symbol whose index in the sorted order has been reached. */
    method Finish(t: Tree, ghost ls: seq<nat>, ghost cap: nat, index: nat, ghost len: nat, ghost p: nat)
      returns (sym: nat)
      requires t.Holds(ls, cap) && CodeCount(ls) > 0 && 1 <= len <= 15 && (len > 1 ==> !Single(ls))
      requires First(ls, len) <= MsbVal(BitsOf(source), p, len) < First(ls, len) + t.counts[len]
      requires index == Shorter(ls, len) + MsbVal(BitsOf(source), p, len) - First(ls, len)
      ensures HasCode(ls, sym) ||
              (Single(ls) && sym == t.maxSym + 1 && DecodeSymbol(ls, BitsOf(source), p) == NotFound && len == 1)
      ensures HasCode(ls, sym) ==> len == ls[sym] && DecodeSymbol(ls, BitsOf(source), p) ==
                                   if p + len <= |BitsOf(source)| then Found(sym, p + len) else NotFound
    {
      hide BitsOf, Shorter, First, MsbVal, Usable, GoodCode;
      ghost var b := BitsOf(source);
      ghost var r := MsbVal(b, p, len) - First(ls, len);
      UsableGood(ls);
      if r < LenCount(ls, len) {
        ghost var s := Nth(ls, |ls|, len, r);
        assert SortedIndex(ls, s) == index;
        PaddedSymbol(ls, b, p, s);
      } else {
        SingleOne(ls, b, p);
        SingleMiss(ls, b, p);
        assert index == 1;
      }
      sym := t.symbols[index];
    }

    lemma SingleOne(ls: seq<nat>, b: seq<Bit>, p: nat)
      requires Single(ls) && 1 <= MsbVal(b, p, 1) - First(ls, 1)
      ensures BitAt(b, p) == 1 && MsbVal(b, p, 1) - First(ls, 1) == 1 && Shorter(ls, 1) == 0
    {
      assert MsbVal(b, p, 1) == 2 * MsbVal(b, p, 0) + BitAt(b, p);
    }

    lemma CountAt(t: Tree, ls: seq<nat>, cap: nat, len: nat)
      requires t.Holds(ls, cap) && 1 <= len <= 15
      ensures t.Shape() && Usable(ls)
      ensures t.counts[len] == LenCount(ls, len) + (if Single(ls) && len == 1 then 1 else 0)
    {
      hide Usable, LenCount, Single;
    }

    lemma OneBit(b: seq<Bit>, p: nat)
      ensures Val(b, p, 1) == BitAt(b, p)
    {
      assert Val(b, p + 1, 0) == 0;
    }

    /** A code value above all codes of length `len` leaves a longer code, so `len` is below 15. */
    lemma DeeperThan(ls: seq<nat>, b: seq<Bit>, p: nat, len: nat)
      requires Usable(ls) && CodeCount(ls) > 0 && 1 <= len <= 15
      requires MsbVal(b, p, len) - First(ls, len) >= LenCount(ls, len) + (if Single(ls) && len == 1 then 1 else 0)
      requires len > 1 ==> !Single(ls)
      ensures len < 15 && !Single(ls)
    {
      hide Shorter;
      MsbValBound(b, p, len);
      assert Pow2(1) == 2 && First(ls, 1) == 0;
      if Single(ls) {
        assert false;
      }
      if len == 15 {
        KraftIsFirst(ls, 15);
        assert false;
      }
    }

    // ----- tinf_decode_trees -----

    /** Where reading code lengths stands: `acc` read, the rest of the answer still in the stream. */
    ghost predicate LensSoFar(cl: seq<nat>, start: nat, acc: seq<nat>, total: nat)
      reads this
    {
      var b := BitsOf(source);
      start <= |b| &&
      ReadOps(cl, b, start, [], total) == if pos <= |b| then ReadOps(cl, b, pos, acc, total) else BadLens
    }

    /** Lines 301-311: the lengths of the code length codes, in their special order. */
    method ReadClLengths(lengths: array<nat>, hclen: nat) returns (ghost clens: seq<nat>)
      requires Between() && lengths.Length == 320 && 4 <= hclen <= 19
      modifies lengths, `src, `tag, `bitcount, `overflow, `taken, `pos
      ensures Between() && pos == old(pos) + 3 * hclen
      ensures clens == ReadClens(BitsOf(source), old(pos), hclen) && lengths[..19] == ClLengths(clens, hclen)
      ensures forall i | 0 <= i < hclen :: clens[i] < 8
    {
      hide BitsOf, Val, Order;
      for i := 0 to 19
        modifies lengths
        invariant forall j | 0 <= j < i :: lengths[j] == 0
      {
        lengths[i] := 0;
      }
      clens := [];
      assert lengths[..19] == ClLengths(clens, 0);
      for i := 0 to hclen
        invariant Between() && pos == old(pos) + 3 * i && |clens| == i
        invariant lengths[..19] == ClLengths(clens, i)
        invariant clens == ReadClens(BitsOf(source), old(pos), i)
        invariant forall j | 0 <= j < i :: clens[j] < 8
      {
        ReadClensSnoc(BitsOf(source), old(pos), i);
        ValBound(BitsOf(source), pos, 3);
        assert Pow2(3) == 8;
        var clen := GetBits(3);
        ClLengthsPrefix(clens, [clen], i);
        lengths[Order(i)] := clen;
        clens := clens + [clen];
      }
    }

    lemma {:induction false} ClLengthsPrefix(u: seq<nat>, w: seq<nat>, n: nat)
      requires n <= |u| && n <= 19
      ensures ClLengths(u + w, n) == ClLengths(u, n)
    {
      hide Order;
      if n > 0 {
        ClLengthsPrefix(u, w, n - 1);
      }
    }

    lemma {:induction false} ReadClensSnoc(b: seq<Bit>, p: nat, n: nat)
      ensures ReadClens(b, p, n + 1) == ReadClens(b, p, n) + [Val(b, p + 3 * n, 3)]
      decreases n
    {
      hide Val;
      if n > 0 {
        ReadClensSnoc(b, p + 3, n - 1);
      }
    }

    /** Lines 326-365: the code lengths themselves, with their repeat instructions. */
    method ReadLengths(lengths: array<nat>, total: nat, ghost cl: seq<nat>) returns (res: Status)
      requires Between() && Sound() && ltree.Holds(cl, 288) && |cl| == 19 && CodeCount(cl) > 0
      requires lengths.Length == 320 && total <= 316
      requires lengths != ltree.counts && lengths != ltree.symbols
      modifies lengths, `src, `tag, `bitcount, `overflow, `taken, `pos
      ensures Between() && pos >= old(pos) && res != BufError
      ensures res == Ok ==> ShortLengths(lengths[..total])
      ensures old(pos) <= |BitsOf(source)| ==>
                var r := ReadOps(cl, BitsOf(source), old(pos), [], total);
                if res == Ok && pos <= |BitsOf(source)| then r == Lens(lengths[..total], pos) else r == BadLens
    {
      hide BitsOf, Val, Usable, Tree.Holds, Tree.SymbolsFor, OpLengths;
      var num := 0;
      while num < total
        invariant Between() && pos >= old(pos) && num <= total && ltree.Holds(cl, 288)
        invariant old(pos) <= |BitsOf(source)| ==> LensSoFar(cl, old(pos), lengths[..num], total)
        invariant ShortLengths(lengths[..num])
      {
        ghost var acc, q := lengths[..num], pos;
        var ok, sym, length, op := ReadLength(lengths, num, total, cl);
        if !ok {
          return DataError;
        }
        for k := 0 to length
          modifies lengths
          invariant num == |acc| + k && num <= total
          invariant lengths[..|acc|] == acc && forall j | |acc| <= j < num :: lengths[j] == sym
        {
          lengths[num] := sym;
          num := num + 1;
        }
        assert lengths[..num] == acc + OpLengths(op, acc);
      }
      return Ok;
    }

    /** Lines 327-360: one instruction, checked against the room left. */
    method ReadLength(lengths: array<nat>, num: nat, total: nat, ghost cl: seq<nat>)
      returns (ok: bool, sym: nat, length: nat, ghost op: LenOp)
      requires Between() && Sound() && ltree.Holds(cl, 288) && |cl| == 19 && CodeCount(cl) > 0
      requires num < total <= lengths.Length && ShortLengths(lengths[..num])
      modifies `src, `tag, `bitcount, `overflow, `taken, `pos
      ensures Between() && pos > old(pos)
      ensures ok ==> 1 <= length && num + length <= total && sym <= 15 && (op.CopyPrev? ==> num > 0)
      ensures ok ==> OpLengths(op, lengths[..num]) == Repeat(sym, length)
      ensures old(pos) <= |BitsOf(source)| ==>
                ReadOps(cl, BitsOf(source), old(pos), lengths[..num], total) ==
                if ok && pos <= |BitsOf(source)|
                then ReadOps(cl, BitsOf(source), pos, lengths[..num] + OpLengths(op, lengths[..num]), total)
                else BadLens
    {
      hide BitsOf, Val, Tree.Holds, ReadOps, Repeat, Between, DecodeSymbol, CodeCount, Single;
      sym := ReadSymbol(ltree, cl, 288);
      MaxSymBound(ltree, cl, 288, sym);
      length, op := 0, Len(0);
      ghost var b, s, acc, p := BitsOf(source), sym, lengths[..num], old(pos);
      if p <= |b| {
        OpStep(cl, b, p, acc, total);
      }
      if sym > ltree.maxSym {
        return false, sym, length, op;
      }
      ghost var q := pos;
      if sym == 16 {
        if num == 0 {
          return false, sym, length, op;
        }
        sym := lengths[num - 1];
        length := GetBitsBase(2, 3);
        op := CopyPrev(length - 3);
      } else if sym == 17 {
        sym := 0;
        length := GetBitsBase(3, 3);
        op := Zeros(length - 3);
      } else if sym == 18 {
        sym := 0;
        length := GetBitsBase(7, 11);
        op := MoreZeros(length - 11);
      } else {
        length := 1;
        op := Len(sym);
      }
      ok := length <= total - num;
      assert num > 0 ==> acc[|acc| - 1] == lengths[num - 1];
      assert op == MakeOp(s, Val(b, q, OpExtraBits(op)));
    }

    lemma MaxSymBound(t: Tree, ls: seq<nat>, cap: nat, sym: nat)
      requires t.Holds(ls, cap)
      ensures HasCode(ls, sym) && sym <= cap ==> sym <= t.maxSym
    {}

    /** tinf_decode_trees.  On success both tables describe the codes `ll` and `dl` sent in the stream. */
    method DecodeTrees() returns (res: Status, ghost ll: seq<nat>, ghost dl: seq<nat>)
      requires Between() && Sound()
      modifies `src, `tag, `bitcount, `overflow, `taken, `pos
      modifies ltree, ltree.counts, ltree.symbols, dtree, dtree.counts, dtree.symbols
      ensures Between() && pos > old(pos) && res != BufError
      ensures res == Ok ==> ltree.Holds(ll, 288) && dtree.Holds(dl, 288) && HasCode(ll, 256)
      ensures ReadTrees(BitsOf(source), old(pos)) ==
              if res == Ok && pos <= |BitsOf(source)| then Trees(ll, dl, pos) else BadTrees
    {
      hide BitsOf, Val, Usable, Tree.Holds, ReadOps, ReadFront;
      var lengths := new nat[320];
      ghost var cl;
      var hlit, hdist;
      ll, dl := [], [];
      res, hlit, hdist, cl := ReadHeader(lengths);
      if res == Ok {
        ghost var start := pos;
        res := ReadLengths(lengths, hlit + hdist, cl);
        if res == Ok {
          res, ll, dl := BuildBoth(lengths, hlit, hdist, pos);
        }
      }
    }

    /** Lines 280-323. */
    method ReadHeader(lengths: array<nat>) returns (res: Status, hlit: nat, hdist: nat, ghost cl: seq<nat>)
      requires Between() && Sound() && lengths.Length == 320
      requires lengths != ltree.counts && lengths != ltree.symbols
      modifies lengths, `src, `tag, `bitcount, `overflow, `taken, `pos
      modifies ltree, ltree.counts, ltree.symbols
      ensures Between() && pos > old(pos) && res != BufError
      ensures res == Ok ==> ltree.Holds(cl, 288) && CodeCount(cl) > 0 && |cl| == 19
      ensures res == Ok ==> 257 <= hlit <= 286 && 1 <= hdist <= 30
      ensures ReadFront(BitsOf(source), old(pos)) ==
              if res == Ok && pos <= |BitsOf(source)| then Front(hlit, hdist, cl, pos) else BadFront
    {
      hide BitsOf, Val, Usable, Tree.SymbolsFor, Tree.CountsFor, ClLengths, ReadClens, Between;
      ghost var b, p := BitsOf(source), pos;
      cl := [];
      HeaderFields(b, p);
      hlit := GetBitsBase(5, 257);
      hdist := GetBitsBase(5, 1);
      var hclen := GetBitsBase(4, 4);
      if hlit > 286 || hdist > 30 {
        return DataError, hlit, hdist, cl;
      }
      ghost var clens := ReadClLengths(lengths, hclen);
      cl := ClLengths(clens, hclen);
      ClLengthsSmall(clens, hclen);
      assert lengths[0..0 + 19] == cl;
      res := ltree.Build(lengths, 0, 19);
      if res == Ok && ltree.maxSym == -1 {
        res := DataError;
      }
    }

    /** Lines 368-385. */
    method BuildBoth(lengths: array<nat>, hlit: nat, hdist: nat, ghost q: nat)
      returns (res: Status, ghost ll: seq<nat>, ghost dl: seq<nat>)
      requires Sound() && lengths.Length == 320 && 257 <= hlit <= 286 && 1 <= hdist <= 30
      requires ShortLengths(lengths[..hlit + hdist])
      requires lengths != ltree.counts && lengths != ltree.symbols
      requires lengths != dtree.counts && lengths != dtree.symbols
      modifies ltree, ltree.counts, ltree.symbols, dtree, dtree.counts, dtree.symbols
      ensures res != BufError
      ensures res == Ok ==> ltree.Holds(ll, 288) && dtree.Holds(dl, 288) && HasCode(ll, 256)
      ensures SplitLengths(Lens(lengths[..hlit + hdist], q), hlit) ==
              if res == Ok then Trees(ll, dl, q) else BadTrees
    {
      hide Usable, Tree.SymbolsFor, Tree.CountsFor;
      ghost var all := lengths[..hlit + hdist];
      ll, dl := all[..hlit], all[hlit..];
      assert lengths[0..0 + hlit] == ll && lengths[hlit..hlit + hdist] == dl;
      assert lengths[256] == all[256] == ll[256];
      if lengths[256] == 0 {
        return DataError, ll, dl;
      }
      res := ltree.Build(lengths, 0, hlit);
      if res == Ok {
        res := dtree.Build(lengths, hlit, hdist);
      }
    }

    lemma HeaderFields(b: seq<Bit>, p: nat)
      ensures Val(b, p, 5) < 32 && Val(b, p + 5, 5) < 32 && Val(b, p + 10, 4) < 16
    {
      hide Val;
      ValBound(b, p, 5);
      ValBound(b, p + 5, 5);
      ValBound(b, p + 10, 4);
      assert Pow2(5) == 32 && Pow2(4) == 16;
    }

    // ----- tinf_inflate_block_data -----

    /** Where a block stands: what is decoded so far, the rest of the answer still in the stream. */
    ghost predicate TokensSoFar(ll: seq<nat>, dl: seq<nat>, start: nat, before: seq<Byte>)
      requires destPos <= dest.Length
      reads this, dest
    {
      var b := BitsOf(source);
      start <= |b| ==>
        ReadTokens(ll, dl, b, start, before) ==
        if pos <= |b| then ReadTokens(ll, dl, b, pos, Out()) else Invalid
    }

    /** What the result of decoding a block means for a decoder that answers `r`. */
    ghost predicate Verdict(res: Status, r: Outcome)
      requires destPos <= dest.Length
      reads this, dest
    {
      match res
      case Ok => r == Done(Out(), pos)
      case DataError => r == Invalid
      case BufError => r.Done? ==> |r.out| > destEnd
    }

    lemma {:induction false} TokensGrow(ll: seq<nat>, dl: seq<nat>, b: seq<Bit>, p: nat, out: seq<Byte>)
      requires p <= |b|
      ensures ReadTokens(ll, dl, b, p, out).Done? ==> |out| <= |ReadTokens(ll, dl, b, p, out).out|
      decreases |b| - p
    {
      hide Copy;
      var r := ReadToken(ll, dl, b, p);
      if r.Tok? && InWindow(r.token, |out|) {
        TokensGrow(ll, dl, b, r.next, Emit(r.token, out));
      }
    }

    /** The forward copy loop appends what the window copy says, overlapping or not. */
    method CopyMatch(length: nat, offs: nat)
      requires 1 <= offs <= destPos && destPos + length <= destEnd <= dest.Length
      modifies dest, `destPos
      ensures destPos == old(destPos) + length
      ensures Out() == Copy(old(Out()), length, offs)
      ensures forall k | destPos <= k < dest.Length :: dest[k] == old(dest[k])
    {
      hide Copy;
      ghost var goal := Copy(Out(), length, offs);
      for i := 0 to length
        modifies dest
        invariant Copy(dest[..destPos + i], length - i, offs) == goal
        invariant forall k | destPos + i <= k < dest.Length :: dest[k] == old(dest[k])
      {
        ghost var sofar := dest[..destPos + i];
        CopyStep(sofar, length - i, offs);
        dest[destPos + i] := dest[destPos + i - offs];
        assert dest[..destPos + i + 1] == sofar + [sofar[|sofar| - offs]];
      }
      CopyNone(dest[..destPos + length], offs);
      destPos := destPos + length;
    }

    lemma CopyNone(out: seq<Byte>, dist: nat)
      requires 1 <= dist <= |out|
      ensures Copy(out, 0, dist) == out
    {}

    lemma CopyStep(out: seq<Byte>, len: nat, dist: nat)
      requires 1 <= dist <= |out| && len > 0
      ensures Copy(out, len, dist) == Copy(out + [out[|out| - dist]], len - 1, dist)
    {}

    /** Lines 451-463: the rest of a match after its length symbol. */
    method ReadMatchFields(sym: nat, ghost dl: seq<nat>) returns (ok: bool, length: nat, offs: nat, ghost t: Token)
      requires Between() && dtree.Holds(dl, 29) && CodeCount(dl) > 0 && 257 <= sym <= 285
      modifies `src, `tag, `bitcount, `overflow, `taken, `pos
      ensures Between() && pos > old(pos)
      ensures ok ==> t.Match? && t.len < 29 && t.dist < 30 && length == MatchLength(t) && offs == MatchDist(t)
      ensures old(pos) <= |BitsOf(source)| ==>
                ReadMatch(dl, BitsOf(source), old(pos), sym - 257) ==
                if ok && pos <= |BitsOf(source)| then Tok(t, pos) else BadToken
    {
      hide BitsOf, Val, Usable, Tree.SymbolsFor, Tree.CountsFor, LenBits, LenBase, DistBits, DistBase, Between;
      ghost var b, p, l := BitsOf(source), pos, sym - 257;
      length := GetBitsBase(LenBits(sym - 257), LenBase(sym - 257));
      var dist := ReadSymbol(dtree, dl, 29);
      offs, t := 0, Literal(0);
      if dist > dtree.maxSym || dist > 29 {
        return false, length, offs, t;
      }
      ghost var q := pos;
      offs := GetBitsBase(DistBits(dist), DistBase(dist));
      t := Match(l, Val(b, p, LenBits(l)), dist, Val(b, q, DistBits(dist)));
      ok := true;
    }

    lemma NoCodes(dl: seq<nat>, b: seq<Bit>, p: nat)
      requires ValidLengths(dl) && CodeCount(dl) == 0
      ensures DecodeSymbol(dl, b, p) == NotFound
    {
      var r := DecodeSymbol(dl, b, p);
      if r.Found? {
        IndexBound(dl, r.symbol);
        assert false;
      }
    }

    /** What remains of decoding the block from `p` after `out`, once a round has ended with `res`. */
    ghost predicate Round(res: Status, ll: seq<nat>, dl: seq<nat>, p: nat, out: seq<Byte>)
      requires p <= |BitsOf(source)| && destPos <= dest.Length
      reads this, dest
    {
      var b := BitsOf(source);
      var r := ReadTokens(ll, dl, b, p, out);
      match res
      case Ok => r == if pos <= |b| then ReadTokens(ll, dl, b, pos, Out()) else Invalid
      case DataError => r == Invalid
      case BufError => r.Done? ==> |r.out| > destEnd
    }

    /** Lines 443-478: a symbol above 256. */
    method InflateMatch(sym: nat, ghost ll: seq<nat>, ghost dl: seq<nat>, ghost p: nat) returns (res: Status)
      requires Between() && Sound() && destPos <= destEnd && !overflow
      requires ltree.Holds(ll, 285) && dtree.Holds(dl, 29) && p <= |BitsOf(source)| && sym > 256
      requires DecodeSymbol(ll, BitsOf(source), p) == (if HasCode(ll, sym) then Found(sym, pos) else NotFound)
      requires HasCode(ll, sym) || sym == ltree.maxSym + 1
      modifies dest, `destPos, `src, `tag, `bitcount, `overflow, `taken, `pos
      ensures Between() && pos >= old(pos) && old(destPos) <= destPos <= destEnd
      ensures dest[..old(destPos)] == old(Out())
      ensures Round(res, ll, dl, p, old(Out()))
      ensures forall k | destEnd <= k < dest.Length :: dest[k] == old(dest[k])
    {
      hide BitsOf, Val, Usable, Tree.SymbolsFor, Tree.CountsFor, ReadTokens, LenBase, DistBase, Copy, ReadMatch, Between;
      ghost var b, out := BitsOf(source), Out();
      OverflowMeansPastEnd();
      TokenStep(ll, dl, b, p, out);
      if sym > ltree.maxSym || sym - 257 > 28 || dtree.maxSym == -1 {
        if dtree.maxSym == -1 {
          NoDistance(dl, b, pos, sym);
        }
        return DataError;
      }
      var ok, length, offs, t := ReadMatchFields(sym, dl);
      if !ok || offs > destPos {
        return DataError;
      }
      if destEnd - destPos < length {
        if pos <= |b| {
          TokensGrow(ll, dl, b, pos, Copy(out, length, offs));
        }
        return BufError;
      }
      CopyMatch(length, offs);
      assert dest[..|out|] == Out()[..|out|] == out;
      return Ok;
    }

    /** tinf_inflate_block_data: each round decodes one token, as the bits from the old position say. */
    method InflateBlockData(ghost ll: seq<nat>, ghost dl: seq<nat>) returns (res: Status)
      requires Between() && Sound() && destPos <= destEnd
      requires ltree.Holds(ll, 285) && dtree.Holds(dl, 29) && HasCode(ll, 256)
      modifies dest, `destPos, `src, `tag, `bitcount, `overflow, `taken, `pos
      ensures Between() && pos > old(pos) && old(destPos) <= destPos <= destEnd
      ensures dest[..old(destPos)] == old(Out())
      ensures res == Ok ==> pos <= |BitsOf(source)|
      ensures old(pos) <= |BitsOf(source)| ==>
                Verdict(res, ReadTokens(ll, dl, BitsOf(source), old(pos), old(Out())))
      ensures old(pos) > |BitsOf(source)| ==> res == DataError
      ensures forall k | destEnd <= k < dest.Length :: dest[k] == old(dest[k])
    {
      hide BitsOf, Val, Usable, Tree.SymbolsFor, Tree.CountsFor, ReadTokens, Between;
      ghost var start, before := pos, Out();
      HasSome(ll, 256);
      while true
        invariant Between() && start <= pos && old(destPos) <= destPos <= destEnd
        invariant dest[..old(destPos)] == before
        invariant TokensSoFar(ll, dl, start, before)
        invariant start > |BitsOf(source)| ==> pos == start
        invariant forall k | destEnd <= k < dest.Length :: dest[k] == old(dest[k])
        decreases |BitsOf(source)| - pos
      {
        ghost var b, p, out := BitsOf(source), pos, Out();
        if p <= |b| {
          TokenStep(ll, dl, b, p, out);
        }
        var sym := ReadSymbol(ltree, ll, 285);
        OverflowMeansPastEnd();
        if overflow {
          return DataError;
        }
        if sym < 256 {
          if destPos == destEnd {
            TokensGrow(ll, dl, b, pos, out + [sym]);
            return BufError;
          }
          dest[destPos] := sym;
          destPos := destPos + 1;
          assert Out() == out + [sym];
        } else {
          if sym == 256 {
            return Ok;
          }
          res := InflateMatch(sym, ll, dl, p);
          if res != Ok {
            return res;
          }
        }
      }
    }

    lemma HasSome(ls: seq<nat>, s: nat)
      requires ValidLengths(ls) && HasCode(ls, s)
      ensures CodeCount(ls) > 0
    {
      IndexBound(ls, s);
    }

    lemma NoDistance(dl: seq<nat>, b: seq<Bit>, p: nat, sym: nat)
      requires ValidLengths(dl) && CodeCount(dl) == 0
      ensures 257 <= sym <= 285 ==> ReadMatch(dl, b, p, sym - 257) == BadToken
    {
      hide Val;
      if 257 <= sym <= 285 {
        NoCodes(dl, b, p + LenBits(sym - 257));
      }
    }

    // ----- blocks -----

    lemma LittleEndian(src: seq<Byte>, k: nat)
      requires k + 1 < |src|
      ensures Val(BitsOf(src), 8 * k, 16) == ReadLe16(src, k)
    {
      hide Val, BitsOf;
      ValSplit(BitsOf(src), 8 * k, 8, 8);
      SourceByte(src, k);
      SourceByte(src, k + 1);
      assert Pow2(8) == 256;
    }

    lemma {:induction false} SourceBytes(src: seq<Byte>, k: nat, n: nat)
      requires k + n <= |src|
      ensures BytesAt(BitsOf(src), 8 * k, n) == src[k..k + n]
      decreases n
    {
      hide Val, BitsOf;
      if n > 0 {
        SourceBytes(src, k + 1, n - 1);
        SourceByte(src, k);
        assert src[k..k + n] == [src[k]] + src[k + 1..k + n];
      }
    }

    /** ReadStored in terms of the source bytes, when `k` is the next whole byte. */
    lemma StoredBytes(p: nat, k: nat, out: seq<Byte>)
      requires 8 * k - 8 < p <= 8 * k
      ensures ReadStored(BitsOf(source), p, out) ==
              if k + 4 > |source| then Invalid
              else
                var len := ReadLe16(source, k);
                if len != 65535 - ReadLe16(source, k + 2) || k + 4 + len > |source| then Invalid
                else Done(out + source[k + 4..k + 4 + len], 8 * (k + 4 + len))
    {
      hide BitsOf, Val, BytesAt;
      assert Aligned(p) == 8 * k;
      if k + 4 <= |source| {
        LittleEndian(source, k);
        LittleEndian(source, k + 2);
        var len := ReadLe16(source, k);
        if k + 4 + len <= |source| {
          SourceBytes(source, k + 4, len);
        }
      }
    }

    /** tinf_inflate_uncompressed_block: the data starts at exactly the next byte boundary. */
    method InflateUncompressedBlock() returns (res: Status)
      requires Between() && Sound() && destPos <= destEnd
      modifies dest, `destPos, `src, `tag, `bitcount, `taken, `pos
      ensures old(destPos) <= destPos <= destEnd
      ensures res == Ok ==> Between() && old(pos) < pos <= |BitsOf(source)|
      ensures old(pos) <= |BitsOf(source)| ==>
                Verdict(res, ReadStored(BitsOf(source), old(pos), old(Out())))
      ensures old(pos) > |BitsOf(source)| ==> res == DataError
      ensures forall k | destEnd <= k < dest.Length :: dest[k] == old(dest[k])
    {
      hide BitsOf, Val, ReadStored;
      ghost var k, out := src, Out();
      if !overflow {
        StoredBytes(pos, k, out);
      }
      if |source| - src < 4 {
        return DataError;
      }
      var length := ReadLe16(source, src);
      var invlength := ReadLe16(source, src + 2);
      if length != 65535 - invlength {
        return DataError;
      }
      src := src + 4;
      if |source| - src < length {
        return DataError;
      }
      if destEnd - destPos < length {
        return BufError;
      }
      CopyStored(length);
      tag := 0;
      bitcount := 0;
      pos, taken := 8 * src, src;
      assert Val(BitsOf(source), pos, 0) == 0 by { EmptyVal(BitsOf(source), pos); }
      return Ok;
    }

    /** Lines 513-516. */
    method CopyStored(count: nat)
      requires src + count <= |source| && destPos + count <= destEnd <= dest.Length
      modifies dest, `destPos, `src
      ensures src == old(src) + count && destPos == old(destPos) + count
      ensures Out() == old(Out()) + source[old(src)..src]
      ensures forall k | destEnd <= k < dest.Length :: dest[k] == old(dest[k])
    {
      var length: nat := count;
      while length > 0
        modifies dest, `src, `destPos
        invariant length <= count && src == old(src) + (count - length) && destPos == old(destPos) + (count - length)
        invariant Out() == old(Out()) + source[old(src)..src]
        invariant forall j | destEnd <= j < dest.Length :: dest[j] == old(dest[j])
      {
        ghost var sofar := Out();
        dest[destPos] := source[src];
        destPos := destPos + 1;
        src := src + 1;
        length := length - 1;
        assert Out() == sofar + [source[src - 1]];
      }
    }

    lemma EmptyVal(b: seq<Bit>, p: nat)
      ensures Val(b, p, 0) == 0
    {}

    method InflateFixedBlock() returns (res: Status)
      requires Between() && Sound() && destPos <= destEnd
      modifies dest, `destPos, `src, `tag, `bitcount, `overflow, `taken, `pos
      modifies ltree, ltree.counts, ltree.symbols, dtree, dtree.counts, dtree.symbols
      ensures old(destPos) <= destPos <= destEnd
      ensures res == Ok ==> Between() && old(pos) < pos <= |BitsOf(source)|
      ensures old(pos) <= |BitsOf(source)| ==>
                Verdict(res, ReadTokens(FixedLit(), FixedDist(), BitsOf(source), old(pos), old(Out())))
      ensures old(pos) > |BitsOf(source)| ==> res == DataError
      ensures forall k | destEnd <= k < dest.Length :: dest[k] == old(dest[k])
    {
      hide BitsOf, Val, ReadTokens, Tree.Holds;
      BuildFixedLit(ltree);
      BuildFixedDist(dtree);
      res := InflateBlockData(FixedLit(), FixedDist());
    }

    method InflateDynamicBlock() returns (res: Status)
      requires Between() && Sound() && destPos <= destEnd
      modifies dest, `destPos, `src, `tag, `bitcount, `overflow, `taken, `pos
      modifies ltree, ltree.counts, ltree.symbols, dtree, dtree.counts, dtree.symbols
      ensures old(destPos) <= destPos <= destEnd
      ensures res == Ok ==> Between() && old(pos) < pos <= |BitsOf(source)|
      ensures old(pos) <= |BitsOf(source)| ==>
                Verdict(res, match ReadTrees(BitsOf(source), old(pos))
                             case BadTrees => Invalid
                             case Trees(ll, dl, q) => ReadTokens(ll, dl, BitsOf(source), q, old(Out())))
      ensures old(pos) > |BitsOf(source)| ==> res == DataError
      ensures forall k | destEnd <= k < dest.Length :: dest[k] == old(dest[k])
    {
      hide BitsOf, Val, ReadTokens, ReadTrees, Tree.SymbolsFor, Tree.CountsFor, Usable;
      ghost var ll, dl;
      res, ll, dl := DecodeTrees();
      if res == Ok {
        res := InflateBlockData(ll, dl);
      }
    }

    lemma BlockGrow(b: seq<Bit>, p: nat, out: seq<Byte>)
      ensures ReadBlock(b, p, out).Done? ==> |out| <= |ReadBlock(b, p, out).out|
    {
      hide Val, ReadTokens, ReadTrees, FixedLit, FixedDist;
      if p + 3 <= |b| {
        TokensGrow(FixedLit(), FixedDist(), b, p + 3, out);
        var t := ReadTrees(b, p + 3);
        if t.Trees? {
          TokensGrow(t.ll, t.dl, b, t.next, out);
        }
      }
    }

    lemma {:induction false} StreamGrow(b: seq<Bit>, p: nat, out: seq<Byte>)
      requires p <= |b|
      ensures ReadStream(b, p, out).Done? ==> |out| <= |ReadStream(b, p, out).out|
      decreases |b| - p
    {
      hide ReadBlock;
      BlockGrow(b, p, out);
      var r := ReadBlock(b, p, out);
      if r.Done? && b[p] != 1 {
        StreamGrow(b, r.next, r.out);
      }
    }

    /** One round of the block loop: the header bits and the body of the block. */
    method InflateBlock() returns (bfinal: nat, res: Status)
      requires Between() && Sound() && destPos <= destEnd && pos <= |BitsOf(source)|
      modifies dest, `destPos, `src, `tag, `bitcount, `overflow, `taken, `pos
      modifies ltree, ltree.counts, ltree.symbols, dtree, dtree.counts, dtree.symbols
      ensures destPos <= destEnd
      ensures res == Ok ==> Between() && old(pos) < pos <= |BitsOf(source)| && bfinal == BitsOf(source)[old(pos)]
      ensures Verdict(res, ReadBlock(BitsOf(source), old(pos), old(Out())))
      ensures forall k | destEnd <= k < dest.Length :: dest[k] == old(dest[k])
    {
      hide BitsOf, Val, ReadTokens, ReadTrees, ReadStored, FixedLit, FixedDist;
      bfinal := GetBits(1);
      OneBit(BitsOf(source), old(pos));
      var btype := GetBits(2);
      TwoBits(BitsOf(source), old(pos) + 1);
      match btype {
        case 0 => res := InflateUncompressedBlock();
        case 1 => res := InflateFixedBlock();
        case 2 => res := InflateDynamicBlock();
        case _ => res := DataError;
      }
    }

    lemma TwoBits(b: seq<Bit>, p: nat)
      ensures Val(b, p, 2) < 4
    {
      hide Val;
      ValBound(b, p, 2);
      assert Pow2(2) == 4;
    }

    /** The block loop of tinf_uncompress, which ends because every block consumes bits. */
    method InflateBlocks() returns (res: Status)
      requires Between() && Sound() && pos == 0 && destPos == 0
      modifies dest, `destPos, `src, `tag, `bitcount, `overflow, `taken, `pos
      modifies ltree, ltree.counts, ltree.symbols, dtree, dtree.counts, dtree.symbols
      ensures destPos <= destEnd
      ensures Verdict(res, ReadStream(BitsOf(source), 0, []))
      ensures forall k | destEnd <= k < dest.Length :: dest[k] == old(dest[k])
    {
      hide BitsOf, Val, ReadBlock;
      ghost var b := BitsOf(source);
      var bfinal := 0;
      assert Out() == [];
      while bfinal == 0
        invariant Between() && pos <= |b| && destPos <= destEnd
        invariant ReadStream(b, 0, []) == if bfinal == 0 then ReadStream(b, pos, Out()) else Done(Out(), pos)
        invariant forall k | destEnd <= k < dest.Length :: dest[k] == old(dest[k])
        decreases |b| - pos, bfinal == 0
      {
        ghost var p, out := pos, Out();
        bfinal, res := InflateBlock();
        if res != Ok {
          if ReadBlock(b, p, out).Done? && b[p] != 1 {
            StreamGrow(b, ReadBlock(b, p, out).next, ReadBlock(b, p, out).out);
          }
          return res;
        }
      }
      OverflowMeansPastEnd();
      if overflow {
        return DataError;
      }
      return Ok;
    }
  }

  /**
   * tinf_uncompress.  On a source that begins with a valid stream the result is Ok exactly when the
   * bytes it stands for fit, and then they are what was written; otherwise the result is an error.
   * Nothing is written past destLen bytes.
   */
  method Uncompress(dest: array<Byte>, destLen: nat, source: seq<Byte>) returns (res: Status, outLen: nat)
    requires destLen <= dest.Length
    modifies dest
    ensures outLen <= destLen
    ensures forall s :: Encodes(source, s) ==>
              res == (if |Expand(s, 0, [])| <= destLen then Ok else BufError) &&
              (res == Ok ==> dest[..outLen] == Expand(s, 0, []))
    ensures res == Ok ==> exists s :: Encodes(source, s)
    ensures forall k | destLen <= k < dest.Length :: dest[k] == old(dest[k])
  {
    hide BitsOf, ReadStream, ValidStream, Expand, StreamBits, At;
    var d := new Data(dest, destLen, source);
    res := d.InflateBlocks();
    outLen := d.destPos;
    forall s | Encodes(source, s)
      ensures ReadStream(BitsOf(source), 0, []) == Done(Expand(s, 0, []), |StreamBits(s, 0, [])|)
    {
      StreamComplete(BitsOf(source), 0, [], s);
    }
    if res == Ok {
      ghost var s := StreamSound(BitsOf(source), 0, []);
      assert Encodes(source, s);
    }
  }
}
