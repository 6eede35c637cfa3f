/** Canonical prefix codes given by their lengths (section 3.2.2 of RFC 1951). */
module Canonical {
  import opened Bits

  /** Code lengths of an alphabet of at most 288 symbols; 0 marks an unused symbol. */
  predicate ValidLengths(ls: seq<nat>) {
    |ls| <= 288 && forall i | 0 <= i < |ls| :: ls[i] <= 15
  }

  /** How many of the first `n` symbols have length `len`. */
  function Cnt(ls: seq<nat>, n: nat, len: nat): (c: nat)
    requires n <= |ls|
    ensures c <= n
  {
    if n == 0 then 0 else Cnt(ls, n - 1, len) + (if ls[n - 1] == len then 1 else 0)
  }

  /** bl_count of the RFC: codes of length `len`, where length 0 is no code. */
  function LenCount(ls: seq<nat>, len: nat): nat {
    if len == 0 then 0 else Cnt(ls, |ls|, len)
  }

  /** next_code of the RFC: the smallest code of length `len`. */
  function First(ls: seq<nat>, len: nat): nat {
    if len == 0 then 0 else 2 * (First(ls, len - 1) + LenCount(ls, len - 1))
  }

  /** The number of codes shorter than `len`. */
  function Shorter(ls: seq<nat>, len: nat): nat {
    if len == 0 then 0 else Shorter(ls, len - 1) + LenCount(ls, len - 1)
  }

  function CodeCount(ls: seq<nat>): nat {
    Shorter(ls, 16)
  }

  predicate HasCode(ls: seq<nat>, s: nat) {
    s < |ls| && ls[s] > 0
  }

  /** The numerical value the RFC assigns to symbol `s`: codes of one length are consecutive in symbol order. */
  function CodeValue(ls: seq<nat>, s: nat): nat
    requires s < |ls|
  {
    First(ls, ls[s]) + Cnt(ls, s, ls[s])
  }

  /** The code of `s` as it stands in the stream, most significant bit first. */
  function Code(ls: seq<nat>, s: nat): (w: seq<Bit>)
    requires s < |ls|
    ensures |w| == ls[s]
  {
    MsbBits(CodeValue(ls, s), ls[s])
  }

  /** The Kraft sum of the codes no longer than `len`, scaled by 2^len. */
  function Kraft(ls: seq<nat>, n: nat, len: nat): nat
    requires n <= |ls|
  {
    if n == 0 then 0
    else Kraft(ls, n - 1, len) + (if 0 < ls[n - 1] <= len then Pow2(len - ls[n - 1]) else 0)
  }

  predicate Complete(ls: seq<nat>) {
    Kraft(ls, |ls|, 15) == Pow2(15)
  }

  /** The one incomplete code allowed: a single symbol, coded in one bit (section 3.2.7). */
  predicate Single(ls: seq<nat>) {
    CodeCount(ls) == 1 && LenCount(ls, 1) == 1
  }

  /** A code that leaves no bit string undecodable, or holds at most one symbol. */
  predicate Usable(ls: seq<nat>) {
    CodeCount(ls) == 0 || Single(ls) || (CodeCount(ls) > 1 && Complete(ls))
  }

  /** No length has more codes than the shorter codes leave room for. */
  predicate Fits(ls: seq<nat>) {
    forall len | 0 <= len <= 15 :: First(ls, len) + LenCount(ls, len) <= Pow2(len)
  }

  predicate GoodCode(ls: seq<nat>) {
    ValidLengths(ls) && Fits(ls)
  }

  lemma {:induction false} CntMono(ls: seq<nat>, m: nat, n: nat, len: nat)
    requires m <= n <= |ls|
    ensures Cnt(ls, m, len) <= Cnt(ls, n, len)
  {
    if m < n {
      CntMono(ls, m, n - 1, len);
    }
  }

  lemma RankBound(ls: seq<nat>, s: nat)
    requires HasCode(ls, s)
    ensures Cnt(ls, s, ls[s]) < LenCount(ls, ls[s])
  {
    CntMono(ls, s + 1, |ls|, ls[s]);
  }

  lemma RankInjective(ls: seq<nat>, s: nat, s': nat)
    requires s < |ls| && s' < |ls| && ls[s] == ls[s'] && s != s'
    ensures Cnt(ls, s, ls[s]) != Cnt(ls, s', ls[s])
  {
    if s < s' {
      CntMono(ls, s + 1, s', ls[s]);
    } else {
      CntMono(ls, s' + 1, s, ls[s]);
    }
  }

  /** The symbol of length `len` with exactly `r` predecessors of that length. */
  function Nth(ls: seq<nat>, n: nat, len: nat, r: nat): (s: nat)
    requires n <= |ls| && r < Cnt(ls, n, len)
    ensures s < n && ls[s] == len && Cnt(ls, s, len) == r
  {
    if ls[n - 1] == len && Cnt(ls, n - 1, len) == r then n - 1 else Nth(ls, n - 1, len, r)
  }

  lemma {:induction false} ShorterMono(ls: seq<nat>, m: nat, n: nat)
    requires m <= n
    ensures Shorter(ls, m) <= Shorter(ls, n)
  {
    if m < n {
      ShorterMono(ls, m, n - 1);
    }
  }

  lemma {:induction false} KraftStep(ls: seq<nat>, n: nat, len: nat)
    requires n <= |ls|
    ensures Kraft(ls, n, len + 1) == 2 * Kraft(ls, n, len) + Cnt(ls, n, len + 1)
  {
    if n > 0 {
      KraftStep(ls, n - 1, len);
    }
  }

  lemma {:induction false} KraftZero(ls: seq<nat>, n: nat)
    requires n <= |ls|
    ensures Kraft(ls, n, 0) == 0
  {
    if n > 0 {
      KraftZero(ls, n - 1);
    }
  }

  /** The RFC's running code value is the Kraft sum: First(len) + count(len) = 2^len * (sum of 2^-length). */
  lemma {:induction false} KraftIsFirst(ls: seq<nat>, len: nat)
    ensures First(ls, len) + LenCount(ls, len) == Kraft(ls, |ls|, len)
  {
    if len == 0 {
      KraftZero(ls, |ls|);
    } else {
      KraftIsFirst(ls, len - 1);
      KraftStep(ls, |ls|, len - 1);
    }
  }

  lemma {:induction false} FirstGrows(ls: seq<nat>, len: nat, k: nat)
    ensures First(ls, len + k) >= Pow2(k) * First(ls, len)
    ensures k > 0 ==> First(ls, len + k) >= Pow2(k) * (First(ls, len) + LenCount(ls, len))
  {
    if k == 1 {
    } else if k > 1 {
      FirstGrows(ls, len, k - 1);
      MulAssoc(2, Pow2(k - 1), First(ls, len) + LenCount(ls, len));
      MulAssoc(2, Pow2(k - 1), First(ls, len));
    }
  }

  lemma KraftFitsAt(ls: seq<nat>, len: nat, max: nat)
    requires len <= max && First(ls, max) + LenCount(ls, max) <= Pow2(max)
    ensures First(ls, len) + LenCount(ls, len) <= Pow2(len)
  {
    var k, used := max - len, First(ls, len) + LenCount(ls, len);
    FirstGrows(ls, len, k);
    Pow2Add(k, len);
    if k == 0 {
      return;
    }
    MulCancel(Pow2(k), used, Pow2(len));
  }

  /** A total Kraft sum of at most one bounds the codes at every length. */
  lemma KraftFits(ls: seq<nat>)
    requires Kraft(ls, |ls|, 15) <= Pow2(15)
    ensures Fits(ls)
  {
    KraftIsFirst(ls, 15);
    forall len | 0 <= len <= 15
      ensures First(ls, len) + LenCount(ls, len) <= Pow2(len)
    {
      KraftFitsAt(ls, len, 15);
    }
  }

  lemma UsableFits(ls: seq<nat>)
    requires Usable(ls)
    ensures Fits(ls)
  {
    if CodeCount(ls) > 1 {
      KraftFits(ls);
    } else {
      forall len | 0 <= len <= 15
        ensures First(ls, len) + LenCount(ls, len) <= Pow2(len)
      {
        FewCodes(ls, len);
      }
    }
  }

  lemma {:induction false} FewCodes(ls: seq<nat>, len: nat)
    requires len <= 15 && (CodeCount(ls) == 0 || Single(ls))
    ensures First(ls, len) + LenCount(ls, len) <= (if len == 0 then 0 else Pow2(len - 1))
    ensures Shorter(ls, len + 1) == if len == 0 then 0 else CodeCount(ls)
  {
    if len > 0 {
      FewCodes(ls, len - 1);
      ShorterMono(ls, len + 1, 16);
    }
  }

  lemma CodeInRange(ls: seq<nat>, s: nat)
    requires GoodCode(ls) && HasCode(ls, s)
    ensures CodeValue(ls, s) < First(ls, ls[s]) + LenCount(ls, ls[s]) <= Pow2(ls[s])
  {
    RankBound(ls, s);
  }

  /** The leading bits of a number are the number shifted right. */
  lemma {:induction false} MsbPrefix(b: seq<Bit>, p: nat, n: nat, k: nat)
    ensures Pow2(k) * MsbVal(b, p, n) <= MsbVal(b, p, n + k) < Pow2(k) * (MsbVal(b, p, n) + 1)
  {
    if k > 0 {
      MsbPrefix(b, p, n, k - 1);
      MulAssoc(2, Pow2(k - 1), MsbVal(b, p, n));
      MulAssoc(2, Pow2(k - 1), MsbVal(b, p, n) + 1);
    }
  }

  /** The symbol `s` is coded at position `p`. */
  predicate SymbolAt(ls: seq<nat>, b: seq<Bit>, p: nat, s: nat) {
    HasCode(ls, s) && At(b, p, Code(ls, s))
  }

  lemma SymbolAtValue(ls: seq<nat>, b: seq<Bit>, p: nat, s: nat)
    requires GoodCode(ls) && HasCode(ls, s)
    ensures SymbolAt(ls, b, p, s) <==> p + ls[s] <= |b| && MsbVal(b, p, ls[s]) == CodeValue(ls, s)
  {
    hide First;
    CodeInRange(ls, s);
    MsbAt(b, p, CodeValue(ls, s), ls[s]);
  }

  /** If the first `len` bits are a code of that length, the next `k` bits do not reach a longer code. */
  lemma LongerIsLarger(ls: seq<nat>, b: seq<Bit>, p: nat, len: nat, k: nat)
    requires MsbVal(b, p, len) < First(ls, len) + LenCount(ls, len) && k > 0
    ensures MsbVal(b, p, len + k) < First(ls, len + k)
  {
    FirstGrows(ls, len, k);
    MsbPrefix(b, p, len, k);
    MulLe(Pow2(k), MsbVal(b, p, len) + 1, First(ls, len) + LenCount(ls, len));
  }

  lemma SameValueSameSymbol(ls: seq<nat>, b: seq<Bit>, p: nat, s: nat, s': nat)
    requires HasCode(ls, s) && HasCode(ls, s') && ls[s] <= ls[s']
    requires MsbVal(b, p, ls[s]) == CodeValue(ls, s) < First(ls, ls[s]) + LenCount(ls, ls[s])
    requires MsbVal(b, p, ls[s']) == CodeValue(ls, s')
    ensures s == s'
  {
    if ls[s] < ls[s'] {
      LongerIsLarger(ls, b, p, ls[s], ls[s'] - ls[s]);
    } else if s != s' {
      RankInjective(ls, s, s');
    }
  }

  /** Prefix-freeness: at most one symbol is coded at any position. */
  lemma PrefixFree(ls: seq<nat>, b: seq<Bit>, p: nat, s: nat, s': nat)
    requires GoodCode(ls)
    requires SymbolAt(ls, b, p, s) && SymbolAt(ls, b, p, s')
    ensures s == s'
  {
    assert HasCode(ls, s) && HasCode(ls, s');
    SymbolAtValue(ls, b, p, s);
    SymbolAtValue(ls, b, p, s');
    CodeInRange(ls, s);
    CodeInRange(ls, s');
    if ls[s] <= ls[s'] {
      SameValueSameSymbol(ls, b, p, s, s');
    } else {
      SameValueSameSymbol(ls, b, p, s', s);
    }
  }

  /** Every position of a long enough stream starts with some code word when the code is complete. */
  lemma CompleteCovers(ls: seq<nat>, b: seq<Bit>, p: nat) returns (s: nat)
    requires ValidLengths(ls) && Complete(ls) && p + 15 <= |b|
    ensures SymbolAt(ls, b, p, s)
  {
    KraftFits(ls);
    s := CoveredAt(ls, b, p, 15);
  }

  lemma CoveredAt(ls: seq<nat>, b: seq<Bit>, p: nat, len: nat) returns (s: nat)
    requires GoodCode(ls) && len <= 15 && p + len <= |b|
    requires Kraft(ls, |ls|, len) == Pow2(len)
    ensures SymbolAt(ls, b, p, s)
  {
    KraftIsFirst(ls, len);
    MsbValBound(b, p, len);
    s := Descend(ls, b, p, len);
  }

  /** A value below the codes of one length was below those of the next shorter one. */
  lemma DescendStep(ls: seq<nat>, b: seq<Bit>, p: nat, len: nat)
    requires MsbVal(b, p, len) < First(ls, len) + LenCount(ls, len)
    ensures len > 0 && LenCount(ls, len) == Cnt(ls, |ls|, len)
    ensures MsbVal(b, p, len) < First(ls, len) ==>
              MsbVal(b, p, len - 1) < First(ls, len - 1) + LenCount(ls, len - 1)
  {}

  lemma {:induction false} Descend(ls: seq<nat>, b: seq<Bit>, p: nat, len: nat) returns (s: nat)
    requires GoodCode(ls) && len <= 15 && p + len <= |b|
    requires MsbVal(b, p, len) < First(ls, len) + LenCount(ls, len)
    ensures SymbolAt(ls, b, p, s) && ls[s] <= len
  {
    hide First, LenCount, MsbVal, Nth, GoodCode, SymbolAt;
    DescendStep(ls, b, p, len);
    if MsbVal(b, p, len) < First(ls, len) {
      s := Descend(ls, b, p, len - 1);
    } else {
      s := Nth(ls, |ls|, len, MsbVal(b, p, len) - First(ls, len));
      SymbolAtValue(ls, b, p, s);
    }
  }

  datatype Found = Found(symbol: nat, next: nat) | NotFound

  /** The symbol coded at `p` and the position behind its code. */
  ghost function DecodeSymbol(ls: seq<nat>, b: seq<Bit>, p: nat): (r: Found)
    ensures r.Found? ==> SymbolAt(ls, b, p, r.symbol) && r.next == p + ls[r.symbol]
    ensures r.Found? ==> p < r.next <= |b|
    ensures r.NotFound? ==> forall s :: !SymbolAt(ls, b, p, s)
  {
    if s: nat :| SymbolAt(ls, b, p, s) then Found(s, p + ls[s]) else NotFound
  }

  lemma DecodeSymbolIs(ls: seq<nat>, b: seq<Bit>, p: nat, s: nat)
    requires GoodCode(ls) && SymbolAt(ls, b, p, s)
    ensures DecodeSymbol(ls, b, p) == Found(s, p + ls[s])
  {
    hide GoodCode;
    PrefixFree(ls, b, p, s, DecodeSymbol(ls, b, p).symbol);
  }
}
