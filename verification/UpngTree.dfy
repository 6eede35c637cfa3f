/**
 * The explicit code tree of upng.c: huffman_tree_create_lengths inserts the code words into a table of
 * two-entry nodes.  For every usable code the table has room and spells exactly the canonical code.
 */
module UpngTree {
  import opened Bits
  import opened Canonical
  import opened Streams
  import opened TinfTree

  /** The first `d` bits of the code of `s`, as a number. */
  function Prefix(ls: seq<nat>, s: nat, d: nat): nat
    requires s < |ls| && d <= ls[s]
  {
    Shr(CodeValue(ls, s), ls[s] - d)
  }

  lemma PrefixStep(ls: seq<nat>, s: nat, d: nat)
    requires s < |ls| && d < ls[s]
    ensures Prefix(ls, s, d + 1) / 2 == Prefix(ls, s, d)
  {
    hide CodeValue;
    var k := ls[s] - d - 1;
    assert Pow2(k + 1) == Pow2(k) * 2;
    DivDiv(CodeValue(ls, s), Pow2(k), 2);
  }

  /** A proper prefix of a code lies right of the codes of its length, and in range. */
  lemma PrefixRange(ls: seq<nat>, s: nat, d: nat)
    requires GoodCode(ls) && HasCode(ls, s) && d < ls[s]
    ensures First(ls, d) + LenCount(ls, d) <= Prefix(ls, s, d) < Pow2(d)
  {
    hide GoodCode, First, LenCount, CodeValue;
    var k := ls[s] - d;
    var v, lo := CodeValue(ls, s), First(ls, d) + LenCount(ls, d);
    CodeInRange(ls, s);
    CodeAtLeast(ls, s);
    FirstGrows(ls, d, k);
    Pow2Add(k, d);
    DivBounds(v, Pow2(k), lo, Pow2(d));
  }

  lemma CodeAtLeast(ls: seq<nat>, s: nat)
    requires s < |ls|
    ensures First(ls, ls[s]) <= CodeValue(ls, s)
  {}

  lemma DivBounds(v: nat, m: nat, lo: nat, hi: nat)
    requires m > 0 && m * lo <= v < m * hi
    ensures lo <= v / m < hi
  {
    var q, r := v / m, v % m;
    assert v == m * q + r;
    if q < lo {
      MulLe(m, q + 1, lo);
      assert false;
    }
    if q >= hi {
      MulLe(m, hi, q);
      assert false;
    }
  }

  /** No code is a prefix of another: a code met on the way to `s` is that of `s`. */
  lemma PrefixIsOwn(ls: seq<nat>, s: nat, e: nat)
    requires GoodCode(ls) && HasCode(ls, s) && HasCode(ls, e) && ls[e] <= ls[s]
    requires CodeValue(ls, e) == Prefix(ls, s, ls[e])
    ensures e == s
  {
    hide GoodCode, First, LenCount;
    if ls[e] < ls[s] {
      CodeInRange(ls, e);
      PrefixRange(ls, s, ls[e]);
      assert false;
    } else if e != s {
      assert Pow2(0) == 1;
      RankInjective(ls, s, e);
    }
  }

  // ----- numbering the inner nodes -----

  /** The number of inner nodes less than `d` deep in the tree of the code. */
  function Inner(ls: seq<nat>, d: nat): int {
    if d == 0 then 0 else Inner(ls, d - 1) + Pow2(d - 1) - First(ls, d - 1) - LenCount(ls, d - 1)
  }

  lemma {:induction false} InnerIs(ls: seq<nat>, d: nat)
    ensures Inner(ls, d) == Shorter(ls, d) - 1 + Pow2(d) - First(ls, d)
  {
    hide LenCount;
    if d > 0 {
      InnerIs(ls, d - 1);
    }
  }

  lemma {:induction false} InnerMono(ls: seq<nat>, d: nat, e: nat)
    requires Fits(ls) && d <= e <= 16
    ensures Inner(ls, d) <= Inner(ls, e)
  {
    if d < e {
      InnerMono(ls, d, e - 1);
      assert First(ls, e - 1) + LenCount(ls, e - 1) <= Pow2(e - 1);
    }
  }

  /** How many inner nodes the tree of a usable code has: one less than its leaves, or just the root. */
  lemma InnerTotal(ls: seq<nat>)
    requires Usable(ls) && CodeCount(ls) > 1
    ensures Inner(ls, 15) == CodeCount(ls) - 1
  {
    hide First, LenCount, Kraft;
    InnerIs(ls, 15);
    KraftIsFirst(ls, 15);
    assert Shorter(ls, 16) == Shorter(ls, 15) + LenCount(ls, 15);
  }

  datatype Label = Label(depth: nat, value: nat)

  function Child(a: Label, bit: Bit): Label {
    Label(a.depth + 1, 2 * a.value + bit)
  }

  /** The label is a proper prefix of a code. */
  ghost predicate IsInner(ls: seq<nat>, a: Label) {
    exists s: nat :: HasCode(ls, s) && a.depth < ls[s] && Prefix(ls, s, a.depth) == a.value
  }

  function Number(ls: seq<nat>, a: Label): int {
    Inner(ls, a.depth) + a.value - First(ls, a.depth) - LenCount(ls, a.depth)
  }

  function NodeLimit(ls: seq<nat>): nat {
    if CodeCount(ls) > 1 then CodeCount(ls) - 1 else 1
  }

  lemma NumberRange(ls: seq<nat>, a: Label)
    requires ValidLengths(ls) && Usable(ls) && IsInner(ls, a)
    ensures a.depth < 15
    ensures Inner(ls, a.depth) <= Number(ls, a) < Inner(ls, a.depth + 1)
    ensures 0 <= Number(ls, a) < NodeLimit(ls)
  {
    hide First, LenCount, Shorter, GoodCode, Usable;
    var s: nat :| HasCode(ls, s) && a.depth < ls[s] && Prefix(ls, s, a.depth) == a.value;
    UsableGood(ls);
    GoodParts(ls);
    PrefixRange(ls, s, a.depth);
    InnerMono(ls, 0, a.depth);
    if CodeCount(ls) > 1 {
      InnerMono(ls, a.depth + 1, 15);
      InnerTotal(ls);
    } else {
      OneCode(ls, s);
      NumberRoot(ls);
    }
  }

  lemma OneCode(ls: seq<nat>, s: nat)
    requires ValidLengths(ls) && Usable(ls) && CodeCount(ls) <= 1 && HasCode(ls, s)
    ensures ls[s] == 1
  {
    IndexBound(ls, s);
    SingleIndex(ls, s);
  }

  lemma NumberRoot(ls: seq<nat>)
    ensures Number(ls, Label(0, 0)) == 0
  {}

  lemma GoodParts(ls: seq<nat>)
    requires GoodCode(ls)
    ensures ValidLengths(ls) && Fits(ls)
  {}

  lemma NumberInjective(ls: seq<nat>, a: Label, b: Label)
    requires ValidLengths(ls) && Usable(ls) && IsInner(ls, a) && IsInner(ls, b) && a != b
    ensures Number(ls, a) != Number(ls, b)
  {
    hide First, LenCount, Shorter, GoodCode, Usable, IsInner, Inner;
    NumberRange(ls, a);
    NumberRange(ls, b);
    UsableGood(ls);
    GoodParts(ls);
    if a.depth < b.depth {
      InnerMono(ls, a.depth + 1, b.depth);
    } else if b.depth < a.depth {
      InnerMono(ls, b.depth + 1, a.depth);
    }
  }

  lemma {:induction false} Pigeonhole(xs: seq<int>, m: nat)
    requires forall i, j | 0 <= i < j < |xs| :: xs[i] != xs[j]
    requires forall i | 0 <= i < |xs| :: 0 <= xs[i] < m
    ensures |xs| <= m
    decreases m
  {
    if exists i | 0 <= i < |xs| :: xs[i] == m - 1 {
      var i :| 0 <= i < |xs| && xs[i] == m - 1;
      Pigeonhole(xs[..i] + xs[i + 1..], m - 1);
    } else if |xs| > 0 {
      assert 0 <= xs[0] < m;
      Pigeonhole(xs, m - 1);
    }
  }

  /** Distinct inner labels never outnumber the columns the table has. */
  lemma LabelsFit(ls: seq<nat>, labels: seq<Label>)
    requires ValidLengths(ls) && Usable(ls)
    requires forall i | 0 <= i < |labels| :: IsInner(ls, labels[i])
    requires forall i, j | 0 <= i < j < |labels| :: labels[i] != labels[j]
    ensures |labels| <= NodeLimit(ls)
  {
    hide Usable, IsInner, Number, NodeLimit;
    var xs := seq(|labels|, i requires 0 <= i < |labels| => Number(ls, labels[i]));
    forall i | 0 <= i < |xs| ensures 0 <= xs[i] < NodeLimit(ls) {
      NumberRange(ls, labels[i]);
    }
    forall i, j | 0 <= i < j < |xs| ensures xs[i] != xs[j] {
      NumberInjective(ls, labels[i], labels[j]);
    }
    Pigeonhole(xs, NodeLimit(ls));
  }

  lemma LimitFits(ls: seq<nat>)
    requires ValidLengths(ls) && |ls| >= 2
    ensures NodeLimit(ls) <= |ls| - 1
  {
    ShorterIsShorterIn(ls, 16);
    ShorterInBound(ls, |ls|, 16);
  }

  // ----- the table under construction -----

  const EMPTY: nat := 32767

  function Step(ls: seq<nat>, s: nat, d: nat): Label
    requires s < |ls| && d <= ls[s]
  {
    Label(d, Prefix(ls, s, d))
  }

  /** The bit of the code of `s` that leads from depth `d` to `d + 1`. */
  function StepBit(ls: seq<nat>, s: nat, d: nat): Bit
    requires s < |ls| && d < ls[s]
  {
    Prefix(ls, s, d + 1) % 2
  }

  /** One entry of the table: unused, the symbol spelt so far, or the address of the child node. */
  ghost predicate SlotOk(ls: seq<nat>, labels: seq<Label>, done: nat, entry: nat, child: Label) {
    if entry == EMPTY then child !in labels
    else if entry < |ls| then entry < done && HasCode(ls, entry) && ls[entry] == child.depth && CodeValue(ls, entry) == child.value
    else entry - |ls| < |labels| && labels[entry - |ls|] == child
  }

  /** The nodes are distinct proper prefixes of codes, closed under parents, with the root first. */
  ghost predicate Nodes(ls: seq<nat>, labels: seq<Label>) {
    && |labels| > 0 && labels[0] == Label(0, 0)
    && (forall i, j | 0 <= i < j < |labels| :: labels[i] != labels[j])
    && (forall t | 0 <= t < |labels| :: IsInner(ls, labels[t]))
    && (forall t | 0 <= t < |labels| :: labels[t].depth > 0 ==> Label(labels[t].depth - 1, labels[t].value / 2) in labels)
  }

  ghost predicate Slots(ls: seq<nat>, tree: seq<nat>, labels: seq<Label>, done: nat) {
    && |tree| == 2 * |ls| && |labels| < |ls|
    && (forall t, bit: Bit | 0 <= t < |labels| :: SlotOk(ls, labels, done, tree[2 * t + bit], Child(labels[t], bit)))
    && (forall k | 2 * |labels| <= k < |tree| :: tree[k] == EMPTY)
  }

  /** The codes of the symbols below `done` are all spelt. */
  ghost predicate Spelt(ls: seq<nat>, tree: seq<nat>, labels: seq<Label>, done: nat) {
    && |tree| == 2 * |ls| && |labels| <= |ls|
    && (forall s: nat, d: nat | s < done && HasCode(ls, s) && d < ls[s] :: Step(ls, s, d) in labels)
    && (forall s: nat, t | s < done && HasCode(ls, s) && 0 <= t < |labels| && labels[t] == Step(ls, s, ls[s] - 1) ::
          tree[2 * t + StepBit(ls, s, ls[s] - 1)] == s)
  }

  ghost predicate Trie(ls: seq<nat>, tree: seq<nat>, labels: seq<Label>, done: nat) {
    ValidLengths(ls) && Usable(ls) && Nodes(ls, labels) && Slots(ls, tree, labels, done) && Spelt(ls, tree, labels, done)
  }

  /** The walk for symbol `n` stands at node `t`, `d` bits down its code. */
  ghost predicate Walking(ls: seq<nat>, labels: seq<Label>, n: nat, d: nat, t: nat) {
    && HasCode(ls, n) && d < ls[n] && t < |labels| && labels[t] == Step(ls, n, d)
    && (forall e: nat | e <= d :: Step(ls, n, e) in labels)
  }

  lemma StepIsChild(ls: seq<nat>, n: nat, d: nat)
    requires n < |ls| && d < ls[n]
    ensures Step(ls, n, d + 1) == Child(Step(ls, n, d), StepBit(ls, n, d))
  {
    hide Prefix;
    PrefixStep(ls, n, d);
  }

  lemma StepInner(ls: seq<nat>, n: nat, d: nat)
    requires HasCode(ls, n) && d < ls[n]
    ensures IsInner(ls, Step(ls, n, d))
  {
    hide Prefix;
  }

  lemma LastStep(ls: seq<nat>, n: nat)
    requires HasCode(ls, n)
    ensures Prefix(ls, n, ls[n]) == CodeValue(ls, n)
  {
    hide CodeValue;
    assert Pow2(0) == 1;
  }

  /** An entry met while inserting `n` is either unused or the address of the next node of its walk. */
  lemma EntryOnWay(ls: seq<nat>, tree: seq<nat>, labels: seq<Label>, n: nat, d: nat, t: nat)
    requires Trie(ls, tree, labels, n) && Walking(ls, labels, n, d, t)
    ensures 2 * t + StepBit(ls, n, d) < |tree|
    ensures var e := tree[2 * t + StepBit(ls, n, d)];
            e == EMPTY || (e >= |ls| && d + 1 < ls[n] && Walking(ls, labels, n, d + 1, e - |ls|))
  {
    hide Prefix, CodeValue, Usable, IsInner, Spelt;
    var bit := StepBit(ls, n, d);
    StepIsChild(ls, n, d);
    var e := tree[2 * t + bit];
    assert SlotOk(ls, labels, n, e, Child(labels[t], bit));
    UsableGood(ls);
    if e != EMPTY {
      if e < |ls| {
        PrefixIsOwn(ls, n, e);
        assert false;
      } else if d + 1 == ls[n] {
        LastStep(ls, n);
        CodeIsNotInner(ls, n, labels[e - |ls|]);
        assert false;
      }
    }
  }

  lemma CodeIsNotInner(ls: seq<nat>, n: nat, a: Label)
    requires GoodCode(ls) && HasCode(ls, n) && a == Label(ls[n], CodeValue(ls, n))
    ensures !IsInner(ls, a)
  {
    hide Prefix, CodeValue, GoodCode;
    if IsInner(ls, a) {
      var s: nat :| HasCode(ls, s) && a.depth < ls[s] && Prefix(ls, s, a.depth) == a.value;
      PrefixIsOwn(ls, s, n);
      assert false;
    }
  }

  lemma RoomForNode(ls: seq<nat>, labels: seq<Label>)
    requires ValidLengths(ls) && Usable(ls) && |ls| >= 2 && Nodes(ls, labels)
    ensures |labels| <= |ls| - 1
  {
    hide Usable, IsInner, NodeLimit;
    LabelsFit(ls, labels);
    LimitFits(ls);
  }

  /** Placing the symbol in an unused last entry completes its code. */
  lemma PlaceLeaf(ls: seq<nat>, tree: seq<nat>, labels: seq<Label>, n: nat, t: nat)
    requires Trie(ls, tree, labels, n) && HasCode(ls, n) && Walking(ls, labels, n, ls[n] - 1, t)
    requires tree[2 * t + StepBit(ls, n, ls[n] - 1)] == EMPTY
    ensures Trie(ls, tree[2 * t + StepBit(ls, n, ls[n] - 1) := n], labels, n + 1)
  {
    hide Prefix, CodeValue, Usable, IsInner;
    var d := ls[n] - 1;
    var k := 2 * t + StepBit(ls, n, d);
    var tree' := tree[k := n];
    StepIsChild(ls, n, d);
    LastStep(ls, n);
    forall t', bit: Bit | 0 <= t' < |labels|
      ensures SlotOk(ls, labels, n + 1, tree'[2 * t' + bit], Child(labels[t'], bit))
    {
      assert SlotOk(ls, labels, n, tree[2 * t' + bit], Child(labels[t'], bit));
      if 2 * t' + bit == k {
        assert t' == t && bit == StepBit(ls, n, d);
      }
    }
    forall s: nat, t' | s < n + 1 && HasCode(ls, s) && 0 <= t' < |labels| && labels[t'] == Step(ls, s, ls[s] - 1)
      ensures tree'[2 * t' + StepBit(ls, s, ls[s] - 1)] == s
    {
      if s == n {
        assert t' == t;
      }
    }
  }

  /** A new node in an unused entry carries the walk one bit further. */
  lemma PlaceNode(ls: seq<nat>, tree: seq<nat>, labels: seq<Label>, n: nat, d: nat, t: nat)
    requires Trie(ls, tree, labels, n) && Walking(ls, labels, n, d, t) && d + 1 < ls[n] && |ls| >= 2
    requires tree[2 * t + StepBit(ls, n, d)] == EMPTY
    ensures var labels' := labels + [Step(ls, n, d + 1)];
            && Trie(ls, tree[2 * t + StepBit(ls, n, d) := |labels| + |ls|], labels', n)
            && Walking(ls, labels', n, d + 1, |labels|)
  {
    hide Prefix, CodeValue, Usable, IsInner, HasCode;
    HasCodeIs(ls, n);
    var a := Step(ls, n, d + 1);
    var bit := StepBit(ls, n, d);
    var labels' := labels + [a];
    StepIsChild(ls, n, d);
    assert SlotOk(ls, labels, n, tree[2 * t + bit], Child(labels[t], bit));
    StepInner(ls, n, d + 1);
    NodesGrow(ls, labels, t, bit);
    RoomForNode(ls, labels');
    SlotsGrow(ls, tree, labels, n, t, bit);
    SpeltGrow(ls, tree, labels, n, 2 * t + bit, a);
    forall e: nat | e <= d + 1 ensures Step(ls, n, e) in labels' {
      if e <= d { assert Step(ls, n, e) in labels; }
    }
  }

  lemma HasCodeIs(ls: seq<nat>, n: nat)
    ensures HasCode(ls, n) == (n < |ls| && ls[n] > 0)
  {}

  lemma NodesGrow(ls: seq<nat>, labels: seq<Label>, t: nat, bit: Bit)
    requires Nodes(ls, labels) && t < |labels| && Child(labels[t], bit) !in labels
    requires IsInner(ls, Child(labels[t], bit))
    ensures Nodes(ls, labels + [Child(labels[t], bit)])
  {
    hide IsInner;
    var a := Child(labels[t], bit);
    var labels' := labels + [a];
    assert (2 * labels[t].value + bit) / 2 == labels[t].value;
    forall i | 0 <= i < |labels'| && labels'[i].depth > 0
      ensures Label(labels'[i].depth - 1, labels'[i].value / 2) in labels'
    {
      if i < |labels| {
        assert Label(labels[i].depth - 1, labels[i].value / 2) in labels;
      } else {
        assert labels[t] == Label(a.depth - 1, a.value / 2);
      }
    }
  }

  lemma SlotsGrow(ls: seq<nat>, tree: seq<nat>, labels: seq<Label>, n: nat, t: nat, bit: Bit)
    requires ValidLengths(ls) && Nodes(ls, labels) && Slots(ls, tree, labels, n) && t < |labels|
    requires tree[2 * t + bit] == EMPTY && |labels| + 1 < |ls|
    ensures Slots(ls, tree[2 * t + bit := |labels| + |ls|], labels + [Child(labels[t], bit)], n)
  {
    hide IsInner, CodeValue, HasCode;
    var a := Child(labels[t], bit);
    var labels' := labels + [a];
    var k := 2 * t + bit;
    var tree' := tree[k := |labels| + |ls|];
    forall t', bit': Bit | 0 <= t' < |labels'|
      ensures SlotOk(ls, labels', n, tree'[2 * t' + bit'], Child(labels'[t'], bit'))
    {
      if t' < |labels| {
        assert SlotOk(ls, labels, n, tree[2 * t' + bit'], Child(labels[t'], bit'));
        if 2 * t' + bit' != k {
          SameChild(labels[t], bit, labels[t'], bit');
          assert t' == t ==> bit' != bit;
        } else {
          assert t' == t;
        }
      } else {
        NoGrandchild(ls, labels, t, bit, bit');
      }
    }
  }

  lemma SameChild(a: Label, bit: Bit, a': Label, bit': Bit)
    ensures Child(a, bit) == Child(a', bit') ==> a == a' && bit == bit'
  {}

  lemma NoGrandchild(ls: seq<nat>, labels: seq<Label>, t: nat, bit: Bit, bit': Bit)
    requires Nodes(ls, labels) && t < |labels| && Child(labels[t], bit) !in labels
    ensures Child(Child(labels[t], bit), bit') !in labels + [Child(labels[t], bit)]
  {
    hide IsInner;
    var a := Child(labels[t], bit);
    var c := Child(a, bit');
    assert a == Label(c.depth - 1, c.value / 2);
    if c in labels {
      assert false;
    }
  }

  lemma SpeltGrow(ls: seq<nat>, tree: seq<nat>, labels: seq<Label>, n: nat, k: nat, a: Label)
    requires Spelt(ls, tree, labels, n) && k < |tree| && tree[k] == EMPTY && |ls| <= 288 && |labels| < |ls|
    requires a !in labels && n <= |ls|
    ensures Spelt(ls, tree[k := |labels| + |ls|], labels + [a], n)
  {
    hide Prefix, CodeValue, StepBit;
    var labels' := labels + [a];
    var tree' := tree[k := |labels| + |ls|];
    forall s: nat, t | s < n && HasCode(ls, s) && 0 <= t < |labels'| && labels'[t] == Step(ls, s, ls[s] - 1)
      ensures tree'[2 * t + StepBit(ls, s, ls[s] - 1)] == s
    {
      assert Step(ls, s, ls[s] - 1) in labels;
      assert t < |labels|;
    }
  }

  ghost predicate SpellsAt(ls: seq<nat>, tree: seq<nat>, labels: seq<Label>, s: nat, t: nat)
    requires |tree| == 2 * |ls| && |labels| <= |ls| && t < |labels| && s < |ls| && labels[t].depth < ls[s]
  {
    var d := labels[t].depth;
    var e := tree[2 * t + StepBit(ls, s, d)];
    if d + 1 == ls[s] then e == s
    else e >= |ls| && e - |ls| < |labels| && labels[e - |ls|] == Step(ls, s, d + 1)
  }

  /** The finished table: from any node on the way to a symbol, the next bit of its code leads on to it. */
  ghost predicate SpellsFrom(ls: seq<nat>, tree: seq<nat>, labels: seq<Label>) {
    && |tree| == 2 * |ls| && 0 < |labels| < |ls| && labels[0] == Label(0, 0)
    && forall s: nat, t | HasCode(ls, s) && 0 <= t < |labels| && labels[t].depth < ls[s] &&
                          labels[t] == Step(ls, s, labels[t].depth) :: SpellsAt(ls, tree, labels, s, t)
  }

  /** The last loop clears the unused entries. */
  function Cleared(tree: seq<nat>): seq<nat> {
    seq(|tree|, i requires 0 <= i < |tree| => if tree[i] == EMPTY then 0 else tree[i])
  }

  lemma TrieSpellsAt(ls: seq<nat>, tree: seq<nat>, labels: seq<Label>, s: nat, t: nat)
    requires Trie(ls, tree, labels, |ls|) && HasCode(ls, s) && t < |labels| && labels[t].depth < ls[s]
    requires labels[t] == Step(ls, s, labels[t].depth)
    ensures |Cleared(tree)| == 2 * |ls| && SpellsAt(ls, Cleared(tree), labels, s, t)
  {
    hide Prefix, CodeValue, Usable, IsInner, StepBit, Cleared, Nodes;
    var d := labels[t].depth;
    var bit := StepBit(ls, s, d);
    var e := tree[2 * t + bit];
    ClearedAt(tree, 2 * t + bit);
    if d + 1 < ls[s] {
      StepIsChild(ls, s, d);
      assert SlotOk(ls, labels, |ls|, e, Child(labels[t], bit));
      assert Step(ls, s, d + 1) in labels;
      if e < |ls| {
        UsableGood(ls);
        PrefixIsOwn(ls, s, e);
        assert false;
      }
    } else {
      assert e == s;
    }
  }

  lemma TrieSpells(ls: seq<nat>, tree: seq<nat>, labels: seq<Label>)
    requires Trie(ls, tree, labels, |ls|)
    ensures SpellsFrom(ls, Cleared(tree), labels)
  {
    hide Prefix, CodeValue, Usable, IsInner, Cleared, SpellsAt, Spelt;
    ClearedAt(tree, 0);
    forall s: nat, t | HasCode(ls, s) && 0 <= t < |labels| && labels[t].depth < ls[s] &&
                       labels[t] == Step(ls, s, labels[t].depth)
      ensures SpellsAt(ls, Cleared(tree), labels, s, t)
    {
      TrieSpellsAt(ls, tree, labels, s, t);
    }
  }

  lemma ClearedAt(tree: seq<nat>, k: nat)
    requires k < |tree|
    ensures |Cleared(tree)| == |tree| && Cleared(tree)[k] == (if tree[k] == EMPTY then 0 else tree[k])
  {}

  /** Bit `i` of a code, counted from its most significant bit, is the step of the walk there. */
  lemma CodeBit(ls: seq<nat>, s: nat, i: nat, z: nat)
    requires s < |ls| && i < ls[s]
    ensures Shr(CodeValue(ls, s) + z * Pow2(ls[s]), ls[s] - i - 1) % 2 == StepBit(ls, s, i)
  {
    hide CodeValue;
    var k := ls[s] - i - 1;
    var v, m := CodeValue(ls, s), Pow2(k);
    Pow2Add(i, k + 1);
    var w := z * Pow2(i);
    assert Pow2(k + 1) == 2 * m;
    MulAssoc(z, Pow2(i), 2 * m);
    MulAssoc(w, 2, m);
    assert z * Pow2(ls[s]) == (w * 2) * m;
    var q, r := v / m, v % m;
    assert v + (w * 2) * m == m * (q + w * 2) + r;
    DivModUnique(v + (w * 2) * m, m, q + w * 2, r);
  }

  /** nextcode of upng.c: zero lengths are counted too, which adds a multiple of 2^len to every code. */
  function NextCode(ls: seq<nat>, len: nat): nat {
    if len == 0 then 0 else First(ls, len) + Cnt(ls, |ls|, 0) * Pow2(len)
  }

  lemma NextCodeStep(ls: seq<nat>, len: nat)
    requires len > 0
    ensures NextCode(ls, len) == 2 * (NextCode(ls, len - 1) + Cnt(ls, |ls|, len - 1))
  {
    hide Cnt;
    if len == 1 {
      NoCount(ls);
      assert First(ls, 1) == 2 * (First(ls, 0) + LenCount(ls, 0));
      assert Pow2(1) == 2;
    } else {
      MulAssoc(Cnt(ls, |ls|, 0), Pow2(len - 1), 2);
    }
  }

  lemma NextCodeZero(ls: seq<nat>)
    ensures NextCode(ls, 0) == 0
  {}

  function RawCode(ls: seq<nat>, s: nat): nat
    requires s < |ls|
  {
    NextCode(ls, ls[s]) + Cnt(ls, s, ls[s])
  }

  /** The number upng.c stores is the canonical code plus a multiple of 2^length. */
  lemma RawCodeIs(ls: seq<nat>, s: nat)
    requires HasCode(ls, s)
    ensures RawCode(ls, s) == CodeValue(ls, s) + Cnt(ls, |ls|, 0) * Pow2(ls[s])
  {
    hide First, Cnt, Pow2;
  }

  class HuffmanTree {
    const tree2d: array<nat>
    const maxbitlen: nat
    const numcodes: nat
    ghost var labels: seq<Label>   // the prefix each node stands for

    /** huffman_tree_init. */
    constructor (buffer: array<nat>, numcodes: nat, maxbitlen: nat)
      requires buffer.Length >= 2 * numcodes
      ensures tree2d == buffer && this.numcodes == numcodes && this.maxbitlen == maxbitlen
    {
      tree2d, this.numcodes, this.maxbitlen := buffer, numcodes, maxbitlen;
      labels := [];
    }

    ghost predicate Shape() {
      2 <= numcodes <= 288 && maxbitlen <= 15 && tree2d.Length >= 2 * numcodes
    }

    /** Walking the table from the root spells the canonical code `ls`. */
    ghost predicate Spells(ls: seq<nat>)
      reads this, tree2d
    {
      Shape() && |ls| == numcodes && GoodCode(ls) &&
      ((exists s :: HasCode(ls, s)) ==> SpellsFrom(ls, tree2d[..2 * numcodes], labels))
    }

    /** Step 1. */
    method CountLengths(bitlen: array<nat>) returns (blcount: array<nat>)
      requires Shape() && bitlen.Length >= numcodes
      requires forall i | 0 <= i < numcodes :: bitlen[i] <= maxbitlen
      ensures fresh(blcount) && blcount.Length == 16
      ensures forall len: nat | len < 16 :: blcount[len] == Cnt(bitlen[..numcodes], numcodes, len)
    {
      ghost var ls := bitlen[..numcodes];
      blcount := new nat[16](_ => 0);
      for n := 0 to numcodes
        modifies blcount
        invariant forall len: nat | len < 16 :: blcount[len] == Cnt(ls, n, len)
      {
        assert bitlen[n] == ls[n];
        blcount[bitlen[n]] := blcount[bitlen[n]] + 1;
      }
    }

    /** Step 2. */
    method NextCodes(blcount: array<nat>, ghost ls: seq<nat>) returns (nextcode: array<nat>)
      requires Shape() && |ls| == numcodes && blcount.Length == 16
      requires forall len: nat | len < 16 :: blcount[len] == Cnt(ls, numcodes, len)
      ensures fresh(nextcode) && nextcode.Length == 16
      ensures forall len: nat | len <= maxbitlen :: nextcode[len] == NextCode(ls, len)
    {
      hide NextCode, Cnt;
      nextcode := new nat[16](_ => 0);
      NextCodeZero(ls);
      for bits := 1 to maxbitlen + 1
        modifies nextcode
        invariant forall len: nat | len < bits :: nextcode[len] == NextCode(ls, len)
      {
        NextCodeStep(ls, bits);
        nextcode[bits] := 2 * (nextcode[bits - 1] + blcount[bits - 1]);
      }
    }

    /** Steps 1 to 3: the code of every symbol, plus a multiple of 2^length that the later shifts drop. */
    method GenerateCodes(bitlen: array<nat>) returns (tree1d: array<nat>)
      requires Shape() && bitlen.Length >= numcodes
      requires forall i | 0 <= i < numcodes :: bitlen[i] <= maxbitlen
      ensures fresh(tree1d) && tree1d.Length == 288
      ensures var ls := bitlen[..numcodes]; forall s: nat | HasCode(ls, s) :: tree1d[s] == RawCode(ls, s)
    {
      hide NextCode;
      ghost var ls := bitlen[..numcodes];
      tree1d := new nat[288];
      var blcount := CountLengths(bitlen);
      var nextcode := NextCodes(blcount, ls);
      for n := 0 to numcodes
        modifies tree1d, nextcode
        invariant forall len: nat | 1 <= len <= maxbitlen :: nextcode[len] == NextCode(ls, len) + Cnt(ls, n, len)
        invariant forall s: nat | HasCode(ls, s) && s < n :: tree1d[s] == RawCode(ls, s)
      {
        assert bitlen[n] == ls[n];
        if bitlen[n] != 0 {
          tree1d[n] := nextcode[bitlen[n]];
          nextcode[bitlen[n]] := nextcode[bitlen[n]] + 1;
        }
      }
    }

    /** Lines 255-277: the code words become paths.  For a usable code the table never runs out of nodes. */
    method FillTree(bitlen: array<nat>, tree1d: array<nat>, ghost ls: seq<nat>) returns (ok: bool)
      requires Shape() && bitlen.Length >= numcodes && tree1d.Length == 288
      requires tree2d != bitlen && tree2d != tree1d
      requires ls == bitlen[..numcodes] && ValidLengths(ls)
      requires forall s: nat | HasCode(ls, s) :: tree1d[s] == RawCode(ls, s)
      requires forall k | 0 <= k < 2 * numcodes :: tree2d[k] == EMPTY
      modifies tree2d, `labels
      ensures Usable(ls) && CodeCount(ls) > 0 ==> ok && Trie(ls, tree2d[..2 * numcodes], labels, numcodes)
      ensures (forall i | 0 <= i < numcodes :: bitlen[i] == 0) ==> ok
    {
      hide Trie, Usable, Walking, RawCode;
      ghost var good := Usable(ls) && CodeCount(ls) > 0;
      var nodefilled: nat, treepos: nat := 0, 0;
      labels := [Label(0, 0)];
      if good {
        EmptyTrie(ls, tree2d[..2 * numcodes]);
      }
      for n := 0 to numcodes
        modifies tree2d, `labels
        invariant good ==> Trie(ls, tree2d[..2 * numcodes], labels, n) && treepos == 0 && |labels| == nodefilled + 1
      {
        if good && ls[n] > 0 {
          StartWalk(ls, tree2d[..2 * numcodes], labels, n);
        }
        for i := 0 to bitlen[n]
          modifies tree2d, `labels
          invariant good && ls[n] > 0 ==> |labels| == nodefilled + 1
          invariant good && i < ls[n] ==>
                      Trie(ls, tree2d[..2 * numcodes], labels, n) && Walking(ls, labels, n, i, treepos)
          invariant good && ls[n] > 0 && i == ls[n] ==> Trie(ls, tree2d[..2 * numcodes], labels, n + 1) && treepos == 0
          invariant ls[n] == 0 ==> (good ==> Trie(ls, tree2d[..2 * numcodes], labels, n) && treepos == 0 && |labels| == nodefilled + 1)
        {
          var bit := Shr(tree1d[n], bitlen[n] - i - 1) % 2;
          ghost var tree := tree2d[..2 * numcodes];
          if good {
            WalkStep(ls, tree, labels, n, i, treepos, tree1d[n]);
          }
          if treepos > numcodes - 2 {
            return false;
          }
          var k := 2 * treepos + bit;
          if tree2d[k] == EMPTY {
            if i + 1 == bitlen[n] {
              if good { PlaceLeaf(ls, tree, labels, n, treepos); }
              tree2d[k] := n;
              treepos := 0;
              assert tree2d[..2 * numcodes] == tree[k := n];
            } else {
              if good { PlaceNode(ls, tree, labels, n, i, treepos); }
              nodefilled := nodefilled + 1;
              var address: nat := nodefilled + numcodes;
              tree2d[k] := address;
              treepos := nodefilled;
              labels := labels + [Step(ls, n, i + 1)];
              assert tree2d[..2 * numcodes] == tree[k := address];
            }
          } else {
            treepos := Minus32(tree2d[k], numcodes);
          }
        }
        if good && ls[n] == 0 {
          SkipUnused(ls, tree2d[..2 * numcodes], labels, n);
        }
      }
      return true;
    }

    /**
     * huffman_tree_create_lengths.  For every usable code it succeeds within its numcodes columns, and the
     * table then spells the canonical code.
     */
    method CreateLengths(bitlen: array<nat>) returns (ok: bool)
      requires Shape() && bitlen.Length >= numcodes && tree2d != bitlen
      requires forall i | 0 <= i < numcodes :: bitlen[i] <= maxbitlen
      modifies tree2d, `labels
      ensures Usable(bitlen[..numcodes]) ==> ok && Spells(bitlen[..numcodes])
    {
      hide Usable, Trie, SpellsFrom, CodeValue, RawCode, GoodCode;
      ghost var ls := bitlen[..numcodes];
      var tree1d := GenerateCodes(bitlen);
      for n := 0 to numcodes * 2
        modifies tree2d
        invariant forall k | 0 <= k < n :: tree2d[k] == EMPTY
      {
        tree2d[n] := EMPTY;
      }
      ok := FillTree(bitlen, tree1d, ls);
      if !ok {
        if Usable(ls) && CodeCount(ls) == 0 { NoCodeMeansZeros(ls); }
        return;
      }
      ghost var tree := tree2d[..2 * numcodes];
      for n := 0 to numcodes * 2
        modifies tree2d
        invariant forall k | n <= k < 2 * numcodes :: tree2d[k] == tree[k]
        invariant forall k | 0 <= k < n :: tree2d[k] == if tree[k] == EMPTY then 0 else tree[k]
      {
        if tree2d[n] == EMPTY {
          tree2d[n] := 0;
        }
      }
      assert tree2d[..2 * numcodes] == Cleared(tree);
      if Usable(ls) {
        UsableGood(ls);
        if s: nat :| HasCode(ls, s) {
          IndexBound(ls, s);
          TrieSpells(ls, tree, labels);
        }
      }
    }
  }

  lemma NoCodeMeansZeros(ls: seq<nat>)
    requires ValidLengths(ls) && CodeCount(ls) == 0
    ensures forall i | 0 <= i < |ls| :: ls[i] == 0
  {
    forall i | 0 <= i < |ls| ensures ls[i] == 0 {
      if ls[i] != 0 {
        IndexBound(ls, i);
        assert false;
      }
    }
  }

  /** Unsigned subtraction of 32-bit numbers. */
  function Minus32(x: nat, y: nat): nat {
    (x - y) % 0x1_0000_0000
  }

  lemma EmptyTrie(ls: seq<nat>, tree: seq<nat>)
    requires ValidLengths(ls) && Usable(ls) && CodeCount(ls) > 0 && |ls| >= 2
    requires |tree| == 2 * |ls| && forall k | 0 <= k < |tree| :: tree[k] == EMPTY
    ensures Trie(ls, tree, [Label(0, 0)], 0)
  {
    hide Usable;
    var s := SomeCode(ls, 16);
    RootStep(ls, s);
    StepInner(ls, s, 0);
  }

  lemma RootStep(ls: seq<nat>, s: nat)
    requires ValidLengths(ls) && Usable(ls) && HasCode(ls, s)
    ensures Step(ls, s, 0) == Label(0, 0)
  {
    hide First, LenCount, CodeValue;
    UsableGood(ls);
    PrefixRange(ls, s, 0);
    assert Pow2(0) == 1;
  }

  lemma StartWalk(ls: seq<nat>, tree: seq<nat>, labels: seq<Label>, n: nat)
    requires Trie(ls, tree, labels, n) && HasCode(ls, n)
    ensures Walking(ls, labels, n, 0, 0)
  {
    hide Usable, IsInner, Prefix;
    RootStep(ls, n);
    assert labels[0] in labels;
  }

  lemma WalkStep(ls: seq<nat>, tree: seq<nat>, labels: seq<Label>, n: nat, i: nat, t: nat, raw: nat)
    requires Trie(ls, tree, labels, n) && Walking(ls, labels, n, i, t) && |ls| >= 2 && raw == RawCode(ls, n)
    ensures i < ls[n] && Shr(raw, ls[n] - i - 1) % 2 == StepBit(ls, n, i) && t <= |ls| - 2
    ensures |tree| == 2 * |ls| && 2 * t + StepBit(ls, n, i) < |tree|
    ensures var e := tree[2 * t + StepBit(ls, n, i)];
            e == EMPTY || (e >= |ls| && i + 1 < ls[n] && Walking(ls, labels, n, i + 1, Minus32(e, |ls|)))
  {
    hide Usable, IsInner, Prefix, StepBit, CodeValue, Step, RawCode;
    RawCodeIs(ls, n);
    CodeBit(ls, n, i, Cnt(ls, |ls|, 0));
    RoomForNode(ls, labels);
    EntryOnWay(ls, tree, labels, n, i, t);
  }

  lemma SkipUnused(ls: seq<nat>, tree: seq<nat>, labels: seq<Label>, n: nat)
    requires Trie(ls, tree, labels, n) && n < |ls| && ls[n] == 0
    ensures Trie(ls, tree, labels, n + 1)
  {
    hide Usable, IsInner, Prefix, CodeValue, Nodes;
    forall t, bit: Bit | 0 <= t < |labels|
      ensures SlotOk(ls, labels, n + 1, tree[2 * t + bit], Child(labels[t], bit))
    {
      assert SlotOk(ls, labels, n, tree[2 * t + bit], Child(labels[t], bit));
    }
  }
}
