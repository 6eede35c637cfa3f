/** The Adler-32 checksum of adler32.c, with its deferred modulo, against sections 2.2 and 8.2 of RFC 1950. */
module Adler32 {
  import opened Bits

  const BASE: nat := 65521
  const NMAX: nat := 5552

  /** One more than the sum of the first `n` bytes. */
  function Sum1(data: seq<Byte>, n: nat): nat
    requires n <= |data|
  {
    if n == 0 then 1 else Sum1(data, n - 1) + data[n - 1]
  }

  /** The sum of the first sums after each of the first `n` bytes. */
  function Sum2(data: seq<Byte>, n: nat): nat
    requires n <= |data|
  {
    if n == 0 then 0 else Sum2(data, n - 1) + Sum1(data, n)
  }

  /** The checksum by its definition. */
  function Checksum(data: seq<Byte>): nat {
    Sum2(data, |data|) % BASE * 65536 + Sum1(data, |data|) % BASE
  }

  /** The running form of section 8.2: both sums are reduced after every byte. */
  function Update(adler: (nat, nat), data: seq<Byte>): (nat, nat)
    decreases |data|
  {
    if data == [] then adler
    else
      var s1 := (adler.0 + data[0]) % BASE;
      Update((s1, (adler.1 + s1) % BASE), data[1..])
  }

  lemma {:induction false} UpdateIsSums(data: seq<Byte>, n: nat)
    requires n <= |data|
    ensures Update((Sum1(data, n) % BASE, Sum2(data, n) % BASE), data[n..])
            == (Sum1(data, |data|) % BASE, Sum2(data, |data|) % BASE)
    decreases |data| - n
  {
    if n < |data| {
      ModAdd(Sum1(data, n), data[n]);
      ModAdd(Sum2(data, n), Sum1(data, n + 1));
      assert data[n..][1..] == data[n + 1..];
      UpdateIsSums(data, n + 1);
    } else {
      assert data[n..] == [];
    }
  }

  lemma ModAdd(x: nat, y: nat)
    ensures (x % BASE + y) % BASE == (x + y) % BASE && (x % BASE + y % BASE) % BASE == (x + y) % BASE
  {}

  /** Reducing after every byte gives the checksum. */
  lemma UpdateIsChecksum(data: seq<Byte>)
    ensures var r := Update((1, 0), data); Checksum(data) == r.1 * 65536 + r.0
  {
    assert Sum1(data, 0) == 1 && Sum2(data, 0) == 0 && data[0..] == data;
    hide Sum1, Sum2, Update;
    UpdateIsSums(data, 0);
  }

  /** The checksum of nothing is 1, and that of the nine letters of "Wikipedia" is 0x11E60398. */
  lemma KnownChecksums()
    ensures Checksum([]) == 1
    ensures Checksum([87, 105, 107, 105, 112, 101, 100, 105, 97]) == 0x11E60398
  {
    var data: seq<Byte> := [87, 105, 107, 105, 112, 101, 100, 105, 97];
    assert Sum1(data, 0) == 1 && Sum2(data, 0) == 0;
    assert Sum1(data, 1) == 88 && Sum2(data, 1) == 88;
    assert Sum1(data, 2) == 193 && Sum2(data, 2) == 281;
    assert Sum1(data, 3) == 300 && Sum2(data, 3) == 581;
    assert Sum1(data, 4) == 405 && Sum2(data, 4) == 986;
    assert Sum1(data, 5) == 517 && Sum2(data, 5) == 1503;
    assert Sum1(data, 6) == 618 && Sum2(data, 6) == 2121;
    assert Sum1(data, 7) == 718 && Sum2(data, 7) == 2839;
    assert Sum1(data, 8) == 823 && Sum2(data, 8) == 3662;
    assert Sum1(data, 9) == 920 && Sum2(data, 9) == 4582;
  }

  /** After `n` bytes, the last `j` of them since the last reduction. */
  predicate Running(data: seq<Byte>, n: nat, j: nat, s1: nat, s2: nat) {
    && n <= |data| && j <= NMAX
    && s1 % BASE == Sum1(data, n) % BASE && s2 % BASE == Sum2(data, n) % BASE
    && s1 < BASE + 255 * j && 2 * s2 < 2 * BASE * (j + 1) + 255 * (j * (j + 1))
  }

  /** Up to NMAX bytes may be added before the sums are reduced: no sum passes 32 bits. */
  lemma NoWrap(data: seq<Byte>, n: nat, j: nat, s1: nat, s2: nat)
    requires Running(data, n, j, s1, s2)
    ensures s1 < 0x1_0000_0000 && s2 < 0x1_0000_0000
  {
    MulLe(j, j + 1, NMAX + 1);
    MulLe(NMAX + 1, j, NMAX);
  }

  /** NMAX is the largest such number: from the largest sums, one more byte of 255 can overflow. */
  lemma NMaxIsLargest()
    ensures (BASE - 1) * (NMAX + 1) + 255 * (NMAX * (NMAX + 1) / 2) < 0x1_0000_0000
    ensures (BASE - 1) * (NMAX + 2) + 255 * ((NMAX + 1) * (NMAX + 2) / 2) >= 0x1_0000_0000
  {}

  /** One byte is added; the sums stay within 32 bits. */
  method AddByte(data: array<Byte>, buf: nat, s1: U32, s2: U32, ghost from: nat) returns (s1': U32, s2': U32)
    requires from <= buf < data.Length && buf < from + NMAX
    requires Running(data[..], buf, buf - from, s1, s2)
    ensures Running(data[..], buf + 1, buf + 1 - from, s1', s2')
  {
    hide Running;
    ghost var all := data[..];
    Added(all, buf, buf - from, s1, s2);
    NoWrap(all, buf + 1, buf - from + 1, s1 + data[buf], s2 + (s1 + data[buf]));
    s1' := s1 + data[buf];
    s2' := s2 + s1';
  }

  lemma Added(data: seq<Byte>, n: nat, j: nat, s1: nat, s2: nat)
    requires Running(data, n, j, s1, s2) && n < |data| && j < NMAX
    ensures Running(data, n + 1, j + 1, s1 + data[n], s2 + (s1 + data[n]))
  {
    ModAdd(s1, data[n]);
    ModAdd(Sum1(data, n), data[n]);
    ModAdd(s2, s1 + data[n]);
    ModAdd(Sum2(data, n), Sum1(data, n + 1));
    assert (j + 1) * (j + 2) == j * (j + 1) + 2 * (j + 1);
  }

  /** The body of the unrolled loop. */
  method AddSixteen(data: array<Byte>, buf: nat, s1: U32, s2: U32, ghost from: nat) returns (s1': U32, s2': U32)
    requires from <= buf && buf + 16 <= data.Length && buf + 16 <= from + NMAX
    requires Running(data[..], buf, buf - from, s1, s2)
    ensures Running(data[..], buf + 16, buf + 16 - from, s1', s2')
  {
    hide Running;
    s1', s2' := AddByte(data, buf, s1, s2, from);
    s1', s2' := AddByte(data, buf + 1, s1', s2', from);
    s1', s2' := AddByte(data, buf + 2, s1', s2', from);
    s1', s2' := AddByte(data, buf + 3, s1', s2', from);
    s1', s2' := AddByte(data, buf + 4, s1', s2', from);
    s1', s2' := AddByte(data, buf + 5, s1', s2', from);
    s1', s2' := AddByte(data, buf + 6, s1', s2', from);
    s1', s2' := AddByte(data, buf + 7, s1', s2', from);
    s1', s2' := AddByte(data, buf + 8, s1', s2', from);
    s1', s2' := AddByte(data, buf + 9, s1', s2', from);
    s1', s2' := AddByte(data, buf + 10, s1', s2', from);
    s1', s2' := AddByte(data, buf + 11, s1', s2', from);
    s1', s2' := AddByte(data, buf + 12, s1', s2', from);
    s1', s2' := AddByte(data, buf + 13, s1', s2', from);
    s1', s2' := AddByte(data, buf + 14, s1', s2', from);
    s1', s2' := AddByte(data, buf + 15, s1', s2', from);
  }

  /** The two inner loops: `k` bytes are added. */
  method AddBlock(data: array<Byte>, from: nat, k: nat, s1: U32, s2: U32) returns (s1': U32, s2': U32)
    requires k <= NMAX && from + k <= data.Length && Running(data[..], from, 0, s1, s2)
    ensures Running(data[..], from + k, k, s1', s2')
  {
    hide Running;
    s1', s2' := s1, s2;
    var buf := from;
    var i: nat := k / 16;
    while i > 0
      invariant buf + 16 * i == from + k / 16 * 16 && from <= buf
      invariant Running(data[..], buf, buf - from, s1', s2')
    {
      s1', s2' := AddSixteen(data, buf, s1', s2', from);
      buf := buf + 16;
      i := i - 1;
    }
    i := k % 16;
    while i > 0
      invariant buf + i == from + k && from <= buf
      invariant Running(data[..], buf, buf - from, s1', s2')
    {
      s1', s2' := AddByte(data, buf, s1', s2', from);
      buf := buf + 1;
      i := i - 1;
    }
  }

  /** tinf_adler32. */
  method TinfAdler32(data: array<Byte>) returns (r: U32)
    ensures r == Checksum(data[..])
  {
    hide Running, Checksum, Or;
    var buf: nat, length: nat := 0, data.Length;
    var s1: U32, s2: U32 := 1, 0;
    Start(data[..]);
    while length > 0
      invariant buf + length == data.Length && s1 < BASE && s2 < BASE
      invariant Running(data[..], buf, 0, s1, s2)
    {
      var k: nat := if length < NMAX then length else NMAX;
      s1, s2 := AddBlock(data, buf, k, s1, s2);
      buf := buf + k;
      Reduce(data[..], buf, k, s1, s2);
      s1 := s1 % BASE;
      s2 := s2 % BASE;
      length := length - k;
    }
    Finish(data[..], s1, s2);
    OrHalves(s2, s1);
    r := Or(65536 * s2, s1);
  }

  lemma OrHalves(s2: nat, s1: nat)
    requires s1 < 65536
    ensures Or(65536 * s2, s1) == 65536 * s2 + s1
  {
    hide Pow2;
    Pow2Of16();
    OrIsSum(s2, s1, 16);
  }

  lemma Start(data: seq<Byte>)
    ensures Running(data, 0, 0, 1, 0)
  {}

  lemma Reduce(data: seq<Byte>, n: nat, j: nat, s1: nat, s2: nat)
    requires Running(data, n, j, s1, s2)
    ensures Running(data, n, 0, s1 % BASE, s2 % BASE)
  {
    hide Sum1, Sum2;
    ModMod(s1);
    ModMod(s2);
  }

  lemma ModMod(x: nat)
    ensures x % BASE % BASE == x % BASE
  {}

  lemma Finish(data: seq<Byte>, s1: nat, s2: nat)
    requires Running(data, |data|, 0, s1, s2) && s1 < BASE && s2 < BASE
    ensures s2 * 65536 + s1 == Checksum(data)
  {}
}
