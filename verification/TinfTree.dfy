/** The code tables of tinf: per-length counts and the symbols sorted by code (tinflate.c, struct tinf_tree). */
module TinfTree {
  import opened Bits
  import opened Canonical
  import opened Streams

  datatype Status = Ok | DataError | BufError

  /** The index of symbol `s` when all symbols are sorted by code length, then by symbol. */
  function SortedIndex(ls: seq<nat>, s: nat): nat
    requires s < |ls|
  {
    Shorter(ls, ls[s]) + Cnt(ls, s, ls[s])
  }

  /** Shorter, counted over the first `n` symbols only. */
  function ShorterIn(ls: seq<nat>, n: nat, len: nat): nat
    requires n <= |ls|
  {
    if len <= 1 then 0 else ShorterIn(ls, n, len - 1) + Cnt(ls, n, len - 1)
  }

  lemma {:induction false} ShorterInStep(ls: seq<nat>, n: nat, len: nat)
    requires 0 < n <= |ls|
    ensures ShorterIn(ls, n, len) == ShorterIn(ls, n - 1, len) + (if 0 < ls[n - 1] < len then 1 else 0)
  {
    if len > 1 {
      ShorterInStep(ls, n, len - 1);
    }
  }

  lemma {:induction false} ShorterInZero(ls: seq<nat>, len: nat)
    ensures ShorterIn(ls, 0, len) == 0
  {
    if len > 1 {
      ShorterInZero(ls, len - 1);
    }
  }

  lemma {:induction false} ShorterInBound(ls: seq<nat>, n: nat, len: nat)
    requires n <= |ls|
    ensures ShorterIn(ls, n, len) <= n
  {
    if n == 0 {
      ShorterInZero(ls, len);
    } else {
      ShorterInBound(ls, n - 1, len);
      ShorterInStep(ls, n, len);
    }
  }

  lemma {:induction false} ShorterIsShorterIn(ls: seq<nat>, len: nat)
    ensures Shorter(ls, len) == ShorterIn(ls, |ls|, len)
  {
    if len > 0 {
      ShorterIsShorterIn(ls, len - 1);
    }
  }

  lemma IndexBound(ls: seq<nat>, s: nat)
    requires ValidLengths(ls) && HasCode(ls, s)
    ensures SortedIndex(ls, s) < CodeCount(ls) <= |ls|
  {
    hide Cnt, ShorterIn;
    RankBound(ls, s);
    ShorterMono(ls, ls[s] + 1, 16);
    ShorterIsShorterIn(ls, 16);
    ShorterInBound(ls, |ls|, 16);
  }

  lemma IndexInjective(ls: seq<nat>, s: nat, s': nat)
    requires HasCode(ls, s) && HasCode(ls, s') && s != s'
    ensures SortedIndex(ls, s) != SortedIndex(ls, s')
  {
    hide Cnt;
    RankBound(ls, s);
    RankBound(ls, s');
    if ls[s] < ls[s'] {
      ShorterMono(ls, ls[s] + 1, ls[s']);
    } else if ls[s] > ls[s'] {
      ShorterMono(ls, ls[s'] + 1, ls[s]);
    } else {
      RankInjective(ls, s, s');
    }
  }

  /** The single code, if there is only one, has index 0. */
  lemma SingleIndex(ls: seq<nat>, s: nat)
    requires ValidLengths(ls) && Single(ls) && HasCode(ls, s)
    ensures ls[s] == 1 && SortedIndex(ls, s) == 0 && CodeValue(ls, s) == 0
  {
    hide Cnt;
    IndexBound(ls, s);
    ShorterMono(ls, ls[s] + 1, 16);
    RankBound(ls, s);
    if ls[s] > 1 {
      ShorterMono(ls, 2, ls[s]);
      assert false;
    }
    assert First(ls, 1) == 2 * (First(ls, 0) + LenCount(ls, 0)) == 0;
  }

  lemma {:induction false} SomeCode(ls: seq<nat>, len: nat) returns (s: nat)
    requires Shorter(ls, len) > 0
    ensures HasCode(ls, s)
  {
    if LenCount(ls, len - 1) > 0 {
      s := Nth(ls, |ls|, len - 1, 0);
    } else {
      s := SomeCode(ls, len - 1);
    }
  }

  lemma CountsCodes(ls: seq<nat>, maxSym: int)
    requires ValidLengths(ls) && -1 <= maxSym && (maxSym >= 0 ==> HasCode(ls, maxSym))
    requires forall s: nat | HasCode(ls, s) :: s <= maxSym
    ensures maxSym == -1 <==> CodeCount(ls) == 0
  {
    hide Shorter;
    if maxSym >= 0 {
      IndexBound(ls, maxSym);
    } else if CodeCount(ls) > 0 {
      var s := SomeCode(ls, 16);
    }
  }

  class Tree {
    const counts: array<nat>
    const symbols: array<nat>
    var maxSym: int

    constructor ()
      ensures fresh(counts) && fresh(symbols) && Shape()
    {
      counts := new nat[16];
      symbols := new nat[288];
      maxSym := -1;
    }

    ghost predicate Shape() {
      counts.Length == 16 && symbols.Length == 288 && counts != symbols
    }

    /** The counts of all lengths, with the extra code 1 that marks a single code. */
    ghost predicate CountsFor(ls: seq<nat>)
      requires Shape()
      reads counts
    {
      && counts[0] == 0
      && forall len: nat | 1 <= len <= 15 ::
           counts[len] == LenCount(ls, len) + (if Single(ls) && len == 1 then 1 else 0)
    }

    ghost predicate SymbolsFor(ls: seq<nat>)
      requires Shape() && ValidLengths(ls)
      reads symbols
    {
      forall s: nat | HasCode(ls, s) :: SortedIndex(ls, s) < 288 && symbols[SortedIndex(ls, s)] == s
    }

    /** The table describes the code `ls`; symbols above `cap` may exceed `maxSym`. */
    ghost predicate Holds(ls: seq<nat>, cap: nat)
      reads this, counts, symbols
    {
      && Shape() && ValidLengths(ls) && Usable(ls)
      && CountsFor(ls) && SymbolsFor(ls)
      && -1 <= maxSym && (maxSym == -1 <==> CodeCount(ls) == 0)
      && (forall s: nat | HasCode(ls, s) && (s <= cap || Single(ls)) :: s <= maxSym)
      && (Single(ls) ==> symbols[1] == maxSym + 1)
    }

    /** tinf_build_tree on the code lengths lengths[off..off+num]. */
    method Build(lengths: array<nat>, off: nat, num: nat) returns (res: Status)
      requires Shape() && off + num <= lengths.Length && lengths != counts && lengths != symbols
      requires ValidLengths(lengths[off..off + num])
      modifies this, counts, symbols
      ensures res == if Usable(lengths[off..off + num]) then Ok else DataError
      ensures res == Ok ==> Holds(lengths[off..off + num], 288)
    {
      ghost var ls := lengths[off..off + num];
      CountLengths(lengths, off, num, ls);
      var ok, numCodes, offs := Offsets(ls);
      if !ok {
        return DataError;
      }
      FillSymbols(lengths, off, num, ls, offs);
      CountsCodes(ls, maxSym);
      if numCodes == 1 {
        counts[1] := 2;
        symbols[1] := maxSym + 1;
        SingleSymbols(ls);
      }
      return Ok;
    }

    lemma SingleSymbols(ls: seq<nat>)
      requires ValidLengths(ls) && Single(ls)
      ensures forall s: nat | HasCode(ls, s) :: SortedIndex(ls, s) == 0
    {
      forall s: nat | HasCode(ls, s) ensures SortedIndex(ls, s) == 0 { SingleIndex(ls, s); }
    }

    /** Lines 119-133: the counts and the largest symbol in use. */
    method CountLengths(lengths: array<nat>, off: nat, num: nat, ghost ls: seq<nat>)
      requires Shape() && off + num <= lengths.Length && lengths != counts
      requires ls == lengths[off..off + num] && ValidLengths(ls)
      modifies this, counts
      ensures counts[0] == 0 && forall len: nat | 1 <= len <= 15 :: counts[len] == LenCount(ls, len)
      ensures -1 <= maxSym < num && (maxSym >= 0 ==> HasCode(ls, maxSym))
      ensures forall s: nat | HasCode(ls, s) :: s <= maxSym
    {
      for i := 0 to 16
        invariant forall j | 0 <= j < i :: counts[j] == 0
      {
        counts[i] := 0;
      }
      maxSym := -1;
      for i := 0 to num
        invariant counts[0] == 0 && forall len: nat | 1 <= len <= 15 :: counts[len] == Cnt(ls, i, len)
        invariant -1 <= maxSym < i && (maxSym >= 0 ==> HasCode(ls, maxSym))
        invariant forall s: nat | HasCode(ls, s) && s < i :: s <= maxSym
      {
        assert lengths[off + i] == ls[i];
        if lengths[off + i] != 0 {
          maxSym := i;
          counts[lengths[off + i]] := counts[lengths[off + i]] + 1;
        }
      }
    }

    /** Lines 135-156: offsets of the lengths in the sorted order, and the test that the code is usable. */
    method Offsets(ghost ls: seq<nat>) returns (ok: bool, numCodes: nat, offs: array<nat>)
      requires Shape() && ValidLengths(ls)
      requires counts[0] == 0 && forall len: nat | 1 <= len <= 15 :: counts[len] == LenCount(ls, len)
      ensures ok == Usable(ls)
      ensures fresh(offs) && offs.Length == 16
      ensures ok ==> numCodes == CodeCount(ls) && forall len: nat | 0 <= len < 16 :: offs[len] == Shorter(ls, len)
    {
      hide Usable, Cnt, LenCount;
      offs := new nat[16];
      var available: nat := 1;
      numCodes := 0;
      NoCount(ls);
      for i := 0 to 16
        invariant available == Pow2(i) - First(ls, i) && numCodes == Shorter(ls, i)
        invariant forall len: nat | 0 <= len < i :: offs[len] == Shorter(ls, len)
      {
        var used := counts[i];
        assert used == LenCount(ls, i);
        if used > available {
          NotUsable(ls, i);
          ok := false;
          return;
        }
        available := 2 * (available - used);
        offs[i] := numCodes;
        numCodes := numCodes + used;
      }
      UsableTest(ls, available);
      assert counts[1] == LenCount(ls, 1);
      ok := !((numCodes > 1 && available > 0) || (numCodes == 1 && counts[1] != 1));
    }

    /** Lines 158-163: each symbol goes to its place in the sorted order. */
    method FillSymbols(lengths: array<nat>, off: nat, num: nat, ghost ls: seq<nat>, offs: array<nat>)
      requires Shape() && off + num <= lengths.Length && lengths != symbols && lengths != offs && offs != symbols
      requires ls == lengths[off..off + num] && ValidLengths(ls)
      requires offs.Length == 16 && forall len: nat | 0 <= len < 16 :: offs[len] == Shorter(ls, len)
      modifies symbols, offs
      ensures SymbolsFor(ls)
    {
      hide Shorter, SortedIndex;
      assert forall j | 0 <= j < num :: lengths[off + j] == ls[j];
      for i := 0 to num
        invariant forall j | 0 <= j < num :: lengths[off + j] == ls[j]
        invariant forall len: nat | 1 <= len < 16 :: offs[len] == Shorter(ls, len) + Cnt(ls, i, len)
        invariant forall s: nat | HasCode(ls, s) && s < i :: SortedIndex(ls, s) < 288 && symbols[SortedIndex(ls, s)] == s
      {
        var len := lengths[off + i];
        if len != 0 {
          IndexBound(ls, i);
          DistinctBefore(ls, i);
          assert offs[len] == SortedIndex(ls, i) by { IndexIs(ls, i); }
          symbols[offs[len]] := i;
          offs[len] := offs[len] + 1;
        }
      }
    }
  }

  lemma IndexIs(ls: seq<nat>, s: nat)
    requires s < |ls|
    ensures SortedIndex(ls, s) == Shorter(ls, ls[s]) + Cnt(ls, s, ls[s])
  {}

  lemma DistinctBefore(ls: seq<nat>, i: nat)
    requires HasCode(ls, i)
    ensures forall s: nat | HasCode(ls, s) && s < i :: SortedIndex(ls, s) != SortedIndex(ls, i)
  {
    forall s: nat | HasCode(ls, s) && s < i
      ensures SortedIndex(ls, s) != SortedIndex(ls, i)
    {
      IndexInjective(ls, s, i);
    }
  }

  lemma NotUsable(ls: seq<nat>, len: nat)
    requires len <= 15 && LenCount(ls, len) + First(ls, len) > Pow2(len)
    ensures !Usable(ls)
  {
    if Usable(ls) {
      UsableFits(ls);
      assert false;
    }
  }

  lemma UsableTest(ls: seq<nat>, available: nat)
    requires available == Pow2(16) - First(ls, 16)
    ensures Usable(ls) ==
            !((CodeCount(ls) > 1 && available > 0) || (CodeCount(ls) == 1 && LenCount(ls, 1) != 1))
  {
    hide Shorter, Kraft, LenCount;
    KraftIsFirst(ls, 15);
  }
}
