/** The fixed codes of section 3.2.6 of RFC 1951: complete, and sorted as tinf_build_fixed_trees lists them. */
module FixedCodes {
  import opened Bits
  import opened Canonical
  import opened Deflate
  import opened Streams
  import opened TinfTree

  lemma {:induction false} FixedShorter(len: nat)
    ensures Shorter(FixedLit(), len) == if len <= 7 then 0 else if len == 8 then 24 else if len == 9 then 176 else 288
  {
    hide LenCount, FixedLit;
    if len > 0 {
      FixedShorter(len - 1);
      if len > 1 {
        FixedCount(len - 1);
      } else {
        NoCount(FixedLit());
      }
    }
  }

  lemma {:induction false} FixedDistShorter(len: nat)
    ensures Shorter(FixedDist(), len) == if len <= 5 then 0 else 32
  {
    hide LenCount, FixedDist;
    if len > 0 {
      FixedDistShorter(len - 1);
      FixedDistLenCount(len - 1);
    }
  }

  lemma CompleteByFirst(ls: seq<nat>)
    requires First(ls, 15) + LenCount(ls, 15) == Pow2(15) && CodeCount(ls) > 1
    ensures Usable(ls) && !Single(ls)
  {
    hide Kraft, First, LenCount, Shorter;
    KraftIsFirst(ls, 15);
  }

  lemma FixedLitUsable()
    ensures ValidLengths(FixedLit()) && Usable(FixedLit()) && !Single(FixedLit()) && CodeCount(FixedLit()) == 288
  {
    hide First, LenCount, Shorter, Usable;
    FixedFirst(15);
    FixedCount(15);
    FixedShorter(16);
    CompleteByFirst(FixedLit());
  }

  lemma FixedDistUsable()
    ensures ValidLengths(FixedDist()) && Usable(FixedDist()) && !Single(FixedDist()) && CodeCount(FixedDist()) == 32
  {
    hide First, LenCount, Shorter, Usable;
    FixedDistFirst(15);
    FixedDistLenCount(15);
    FixedDistShorter(16);
    CompleteByFirst(FixedDist());
  }

  lemma FixedIndex(s: nat)
    requires s < 288
    ensures SortedIndex(FixedLit(), s) ==
            if s < 144 then 24 + s else if s < 256 then 176 + (s - 144) else if s < 280 then s - 256 else 168 + (s - 280)
  {
    hide Cnt, Shorter;
    FixedShorter(FixedLit()[s]);
    FixedCnt(s);
  }

  lemma FixedDistIndex(s: nat)
    requires s < 32
    ensures SortedIndex(FixedDist(), s) == s
  {
    hide Cnt, Shorter;
    FixedDistShorter(FixedDist()[s]);
    FixedDistCnt(s, 5);
  }

  /** tinf_build_fixed_trees, literal/length half. */
  method BuildFixedLit(t: Tree)
    requires t.Shape()
    modifies t, t.counts, t.symbols
    ensures t.Holds(FixedLit(), 285)
  {
    hide FixedLit, SortedIndex, Usable, Shorter, LenCount;
    FixedLitUsable();
    for i := 0 to 16
      invariant forall j | 0 <= j < i :: t.counts[j] == 0
    {
      t.counts[i] := 0;
    }
    t.counts[7] := 24;
    t.counts[8] := 152;
    t.counts[9] := 112;
    for i := 0 to 24
      modifies t.symbols
      invariant forall j | 0 <= j < i :: t.symbols[j] == 256 + j
    {
      t.symbols[i] := 256 + i;
    }
    for i := 0 to 144
      modifies t.symbols
      invariant forall j | 0 <= j < 24 :: t.symbols[j] == 256 + j
      invariant forall j | 24 <= j < 24 + i :: t.symbols[j] == j - 24
    {
      t.symbols[24 + i] := i;
    }
    for i := 0 to 8
      modifies t.symbols
      invariant forall j | 0 <= j < 24 :: t.symbols[j] == 256 + j
      invariant forall j | 24 <= j < 168 :: t.symbols[j] == j - 24
      invariant forall j | 168 <= j < 168 + i :: t.symbols[j] == 280 + j - 168
    {
      t.symbols[24 + 144 + i] := 280 + i;
    }
    for i := 0 to 112
      modifies t.symbols
      invariant forall j | 0 <= j < 24 :: t.symbols[j] == 256 + j
      invariant forall j | 24 <= j < 168 :: t.symbols[j] == j - 24
      invariant forall j | 168 <= j < 176 :: t.symbols[j] == 280 + j - 168
      invariant forall j | 176 <= j < 176 + i :: t.symbols[j] == 144 + j - 176
    {
      t.symbols[24 + 144 + 8 + i] := 144 + i;
    }
    t.maxSym := 285;
    forall len: nat | 1 <= len <= 15 ensures t.counts[len] == LenCount(FixedLit(), len) {
      FixedCount(len);
    }
    forall s: nat | HasCode(FixedLit(), s)
      ensures SortedIndex(FixedLit(), s) < 288 && t.symbols[SortedIndex(FixedLit(), s)] == s
    {
      FixedIndex(s);
    }
  }

  /** tinf_build_fixed_trees, distance half. */
  method BuildFixedDist(t: Tree)
    requires t.Shape()
    modifies t, t.counts, t.symbols
    ensures t.Holds(FixedDist(), 29)
  {
    hide FixedDist, SortedIndex, Usable, Shorter, LenCount;
    FixedDistUsable();
    for i := 0 to 16
      invariant forall j | 0 <= j < i :: t.counts[j] == 0
    {
      t.counts[i] := 0;
    }
    t.counts[5] := 32;
    for i := 0 to 32
      modifies t.symbols
      invariant forall j | 0 <= j < i :: t.symbols[j] == j
    {
      t.symbols[i] := i;
    }
    t.maxSym := 29;
    forall len: nat | 1 <= len <= 15 ensures t.counts[len] == LenCount(FixedDist(), len) {
      FixedDistLenCount(len);
    }
    forall s: nat | HasCode(FixedDist(), s)
      ensures SortedIndex(FixedDist(), s) < 288 && t.symbols[SortedIndex(FixedDist(), s)] == s
    {
      FixedDistIndex(s);
    }
  }
}
