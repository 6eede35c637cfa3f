/** The two inflaters side by side, and the one place where upng.c falls short of tinf. */
module InflateBoth {
  import opened Bits
  import opened Canonical
  import opened Deflate
  import opened Decoder
  import opened Inverse
  import opened Streams
  import opened TinfTree
  import opened FixedCodes
  import opened UpngTree
  import opened UpngSpec
  import Tinf
  import Upng

  /**
   * On every valid stream each inflater succeeds exactly when its buffer is large enough, which for
   * upng.c may take a byte more; and when both succeed they write the same bytes.
   */
  method InflateTwice(source: seq<Byte>, inlength: U32, destA: array<Byte>, destB: array<Byte>, outsize: U32,
                      fixedTree: HuffmanTree, fixedTreeD: HuffmanTree)
    returns (res: Status, lenA: nat, ok: bool, lenB: nat)
    requires destA != destB && outsize <= destB.Length
    requires fixedTree.numcodes == 288 && fixedTree.Spells(FixedLit())
    requires fixedTreeD.numcodes == 32 && fixedTreeD.Spells(FixedDist())
    modifies destA, destB
    ensures lenA <= destA.Length && lenB <= destB.Length
    ensures forall s :: Encodes(source, s) && |StreamBits(s, 0, [])| + 16 <= 8 * inlength ==>
              && (res == Ok <==> |Expand(s, 0, [])| <= destA.Length)
              && (ok <==> |Expand(s, 0, [])| < outsize || (|Expand(s, 0, [])| == outsize && LiteralLast(s)))
              && (res == Ok && ok ==> destA[..lenA] == destB[..lenB] == Expand(s, 0, []))
  {
    hide BitsOf, ReadStream, ValidStream, Expand, StreamBits, At, StreamFits, LiteralLast, HuffmanTree.Spells, FixedLit, FixedDist;
    res, lenA := Tinf.Uncompress(destA, destA.Length, source);
    ok, lenB := Upng.Inflate(destB, outsize, source, inlength, fixedTree, fixedTreeD);
  }

  /** Four zero bytes, written as one literal and one match in a fixed block. */
  const FOUR_ZEROS: seq<Byte> := [0x63, 0, 2, 0]

  function FourZerosBits(): seq<Bit> {
    [1, 1, 0, 0, 0, 1, 1, 0, 0, 0, 0, 0, 0, 0, 0, 0, 0, 1, 0, 0, 0, 0, 0, 0, 0, 0, 0, 0, 0, 0, 0, 0]
  }

  lemma ByteCons(x: Byte, rest: seq<Byte>)
    ensures BitsOf([x] + rest) == LsbBits(x, 8) + BitsOf(rest)
  {
    hide BitsOf, LsbBits;
    ByteBitsSplit([x] + rest);
    assert ([x] + rest)[1..] == rest;
  }

  lemma Byte63()
    ensures LsbBits(0x63, 8) == [1, 1, 0, 0, 0, 1, 1, 0]
  {}

  lemma Byte00()
    ensures LsbBits(0, 8) == [0, 0, 0, 0, 0, 0, 0, 0]
  {}

  lemma Byte02()
    ensures LsbBits(2, 8) == [0, 1, 0, 0, 0, 0, 0, 0]
  {}

  lemma FourZerosIs()
    ensures BitsOf(FOUR_ZEROS) == FourZerosBits()
  {
    hide BitsOf, LsbBits;
    Byte63();
    Byte00();
    Byte02();
    NoBytes([]);
    var none: seq<Byte> := [];
    ByteCons(0, none);
    assert [0] + none == [0];
    ByteCons(2, [0]);
    assert [2] + [0] == [2, 0];
    ByteCons(0, [2, 0]);
    assert [0] + [2, 0] == [0, 2, 0];
    ByteCons(0x63, [0, 2, 0]);
    assert [0x63] + [0, 2, 0] == FOUR_ZEROS;
  }

  lemma NoBytes(data: seq<Byte>)
    requires data == []
    ensures BitsOf(data) == []
  {}

  lemma SymbolFound(ls: seq<nat>, b: seq<Bit>, p: nat, s: nat, v: nat)
    requires GoodCode(ls) && HasCode(ls, s) && p + ls[s] <= |b|
    requires CodeValue(ls, s) == v && MsbVal(b, p, ls[s]) == v
    ensures DecodeSymbol(ls, b, p) == Found(s, p + ls[s])
  {
    hide GoodCode, CodeValue;
    SymbolAtValue(ls, b, p, s);
    DecodeSymbolIs(ls, b, p, s);
  }

  lemma FixedValues()
    ensures CodeValue(FixedLit(), 0) == 48 && CodeValue(FixedLit(), 257) == 1 && CodeValue(FixedLit(), 256) == 0
    ensures CodeValue(FixedDist(), 0) == 0
  {
    hide First, Cnt;
    FixedFirst(8);
    FixedFirst(7);
    FixedDistFirst(5);
    FixedCnt(0);
    FixedCnt(256);
    FixedCnt(257);
    FixedDistCnt(0, 5);
  }

  lemma {:induction false} ZeroRun(b: seq<Bit>, p: nat, n: nat)
    requires p + n <= |b| && forall i | p <= i < p + n :: b[i] == 0
    ensures MsbVal(b, p, n) == 0
    decreases n
  {
    if n > 0 {
      ZeroRun(b, p, n - 1);
    }
  }

  lemma MsbNext(b: seq<Bit>, p: nat, n: nat)
    ensures MsbVal(b, p, n + 1) == 2 * MsbVal(b, p, n) + BitAt(b, p + n)
  {}

  lemma LiteralBits(b: seq<Bit>, p: nat)
    requires p + 8 <= |b| && b[p] == b[p + 1] == 0 && b[p + 2] == b[p + 3] == 1
    requires b[p + 4] == b[p + 5] == b[p + 6] == b[p + 7] == 0
    ensures MsbVal(b, p, 8) == 48
  {
    hide MsbVal;
    assert MsbVal(b, p, 0) == 0 by { ZeroRun(b, p, 0); }
    MsbNext(b, p, 0);
    MsbNext(b, p, 1);
    MsbNext(b, p, 2);
    MsbNext(b, p, 3);
    MsbNext(b, p, 4);
    MsbNext(b, p, 5);
    MsbNext(b, p, 6);
    MsbNext(b, p, 7);
  }

  lemma FourZerosZeros(b: seq<Bit>)
    requires b == FourZerosBits()
    ensures MsbVal(b, 11, 6) == 0 && MsbVal(b, 18, 5) == 0 && MsbVal(b, 23, 7) == 0
  {
    hide MsbVal;
    ZeroRun(b, 11, 6);
    ZeroRun(b, 18, 5);
    ZeroRun(b, 23, 7);
  }

  lemma FourZerosAt(b: seq<Bit>)
    requires b == FourZerosBits()
    ensures |b| == 32 && b[0] == b[1] == 1 && b[2] == 0 && b[17] == 1
    ensures b[3] == b[4] == 0 && b[5] == b[6] == 1 && b[7] == b[8] == b[9] == b[10] == 0
  {}

  lemma FourZerosSymbols(b: seq<Bit>)
    requires b == FourZerosBits()
    ensures MsbVal(b, 3, 8) == 48 && MsbVal(b, 11, 7) == 1 && MsbVal(b, 18, 5) == 0 && MsbVal(b, 23, 7) == 0
    ensures Val(b, 1, 2) == 1 && b[0] == 1 && |b| == 32
  {
    hide MsbVal, FourZerosBits;
    FourZerosAt(b);
    FourZerosZeros(b);
    LiteralBits(b, 3);
    MsbNext(b, 11, 6);
    assert Val(b, 1, 2) == b[1] as nat + 2 * Val(b, 2, 1);
    assert Val(b, 2, 1) == b[2] as nat + 2 * Val(b, 3, 0);
  }

  lemma FourZerosDecode(b: seq<Bit>)
    requires b == FourZerosBits()
    ensures DecodeSymbol(FixedLit(), b, 3) == Found(0, 11) && DecodeSymbol(FixedLit(), b, 11) == Found(257, 18)
    ensures DecodeSymbol(FixedLit(), b, 23) == Found(256, 30)
    ensures ReadMatch(FixedDist(), b, 18, 0) == Tok(Match(0, 0, 0, 0), 23)
  {
    hide FixedLit, FixedDist, GoodCode, CodeValue, MsbVal, Val, FourZerosBits, DecodeSymbol;
    FourZerosSymbols(b);
    FixedValues();
    FixedGood();
    FixedLengths();
    SymbolFound(FixedLit(), b, 3, 0, 48);
    SymbolFound(FixedLit(), b, 11, 257, 1);
    SymbolFound(FixedDist(), b, 18, 0, 0);
    SymbolFound(FixedLit(), b, 23, 256, 0);
    NoBits(b, 18);
    NoBits(b, 23);
  }

  /** The block after its header: a literal, a match of three bytes one back, and the end. */
  lemma FourZerosTokens(b: seq<Bit>)
    requires b == FourZerosBits()
    ensures ReadTokens(FixedLit(), FixedDist(), b, 3, []) == Done([0, 0, 0, 0], 30)
    ensures !TokensFit(FixedLit(), FixedDist(), b, 3, [], 4)
  {
    hide *;
    assert |b| == 32 by { FourZerosSymbols(b); }
    FourZerosDecode(b);
    ZerosMatch();
    var ll, dl := FixedLit(), FixedDist();
    var none: seq<Byte> := [];
    assert none + [0] == [0];
    TokenStep(ll, dl, b, 3, []);
    TokenStep(ll, dl, b, 11, [0]);
    TokenStep(ll, dl, b, 23, [0, 0, 0, 0]);
    FitStep(ll, dl, b, 3, [], 4);
    FitMatch(ll, dl, b, 11, [0], 4, 18, 0);
  }

  lemma ZerosMatch()
    ensures MatchLength(Match(0, 0, 0, 0)) == 3 && MatchDist(Match(0, 0, 0, 0)) == 1
    ensures Copy([0], 3, 1) == [0, 0, 0, 0]
  {
    hide Copy;
    CopyZeros();
  }

  lemma NoBits(b: seq<Bit>, p: nat)
    ensures Val(b, p, 0) == 0
  {}

  lemma FixedLengths()
    ensures FixedLit()[0] == 8 && FixedLit()[256] == 7 && FixedLit()[257] == 7 && FixedDist()[0] == 5
  {}

  lemma CopyZeros()
    ensures Copy([0], 3, 1) == [0, 0, 0, 0]
  {
    var x: seq<Byte> := [0];
    assert Copy(x, 3, 1) == Copy([0, 0], 2, 1);
    assert Copy([0, 0], 2, 1) == Copy([0, 0, 0], 1, 1);
    assert Copy([0, 0, 0], 1, 1) == Copy([0, 0, 0, 0], 0, 1);
  }

  /**
   * A valid stream whose output exactly fills the buffer, rejected by upng.c because a match ends it:
   * "every stream whose output fits is inflated" holds of tinf and fails of upng.c.
   */
  lemma ExactFitRejected() returns (s: Stream)
    ensures Encodes(FOUR_ZEROS, s) && Expand(s, 0, []) == [0, 0, 0, 0]
    ensures !LiteralLast(s)
  {
    hide LiteralLast, StreamRoomy, BitsOf, FixedLit, FixedDist, ReadTokens, TokensFit, Val, ValidStream, Expand, StreamBits, At, FourZerosBits;
    var b := BitsOf(FOUR_ZEROS);
    FourZerosIs();
    FourZerosSymbols(b);
    FourZerosTokens(b);
    assert ReadBlock(b, 0, []) == Done([0, 0, 0, 0], 30);
    s := StreamSound(b, 0, []);
    assert !StreamFits(b, 0, [], 4);
    StreamFitIs(b, 0, [], s, 4);
    StreamExact(s, 0, [], 4);
  }
}
