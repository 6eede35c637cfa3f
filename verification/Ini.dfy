/** The INI reader of ini.c: the text is split in place into NUL-terminated strings, which lookups then walk. */
module Ini {
  import opened IniModel

  /** Memory with the stretch from `a` to `b` replaced. */
  function Splice(d: string, a: nat, b: nat, x: string): (r: string)
    requires a <= b <= |d| && |x| == b - a
    ensures |r| == |d|
  {
    d[..a] + x + d[b..]
  }

  /** Part of the memory. */
  function Cut(d: string, a: nat, b: nat): (r: string)
    requires a <= b <= |d|
    ensures |r| == b - a
  {
    d[a..b]
  }

  lemma SpliceTwice(d: string, a: nat, b: nat, c: nat, x: string, y: string)
    requires a <= b <= c <= |d| && |x| == b - a && |y| == c - b
    ensures Splice(Splice(d, a, b, x), b, c, y) == Splice(d, a, c, x + y)
  {}

  /** The text in memory: `end` is the place of the NUL after it. */
  predicate Terminated(data: array<char>, end: nat)
    reads data
  {
    end < data.Length && data[end] == '\0'
  }

  /** strcspn, which stops at the end of the text at the latest. */
  method Strcspn(data: array<char>, end: nat, p: nat, a: char, b: char) returns (q: nat)
    requires Terminated(data, end) && p <= end && (forall i | p <= i < end :: data[i] != '\0')
    ensures p <= q <= end && q == p + Span(Cut(data[..], p, end), a, b)
  {
    q := p;
    while data[q] != '\0' && data[q] != a && data[q] != b
      invariant p <= q <= end && forall i | p <= i < q :: data[i] != a && data[i] != b
      decreases end - q
    {
      q := q + 1;
    }
    SpanUnique(Cut(data[..], p, end), a, b, q - p);
  }

  /** The stretch from `a` to `b` now holds `x`; the rest of the memory is as it was. */
  ghost predicate Spliced(data: array<char>, was: string, a: nat, b: nat, x: string)
    reads data
  {
    a <= b <= |was| && |x| == b - a && data[..] == Splice(was, a, b, x)
  }

  lemma SplicedAt(data: array<char>, was: string, a: nat, b: nat, x: string)
    requires Spliced(data, was, a, b, x)
    ensures data.Length == |was| && forall i | 0 <= i < data.Length && !(a <= i < b) :: data[i] == was[i]
  {
    assert forall i | 0 <= i < data.Length :: data[i] == data[..][i];
  }

  lemma NothingSpliced(data: array<char>, a: nat)
    requires a <= data.Length
    ensures Spliced(data, data[..], a, a, "") && Zeros(0) == ""
  {}

  /** The character after the stretch is written. */
  method Put(data: array<char>, b: nat, c: char, ghost was: string, ghost a: nat, ghost x: string)
    requires Spliced(data, was, a, b, x) && b < data.Length
    modifies data
    ensures Spliced(data, was, a, b + 1, x + [c])
  {
    data[b] := c;
  }

  /** The NUL after a stretch of NULs. */
  method PutZero(data: array<char>, b: nat, ghost was: string, ghost a: nat)
    requires a <= b && Spliced(data, was, a, b, Zeros(b - a)) && b < data.Length
    modifies data
    ensures Spliced(data, was, a, b + 1, Zeros(b + 1 - a))
  {
    assert Zeros(b - a) + ['\0'] == Zeros(b + 1 - a);
    Put(data, b, '\0', was, a, Zeros(b - a));
  }

  /** discard_line. */
  method DiscardLine(data: array<char>, end: nat, p: nat) returns (q: nat)
    requires Terminated(data, end) && p <= end
    modifies data
    ensures p <= q <= end && q == p + Span(Cut(old(data[..]), p, end), '\n', '\n')
    ensures Spliced(data, old(data[..]), p, q, Zeros(q - p))
  {
    hide Spliced, Zeros;
    ghost var was := data[..];
    q := p;
    NothingSpliced(data, p);
    while q < end && data[q] != '\n'
      invariant p <= q <= end && (forall i | p <= i < q :: was[i] != '\n')
      invariant Spliced(data, was, p, q, Zeros(q - p))
    {
      SplicedAt(data, was, p, q, Zeros(q - p));
      PutZero(data, q, was, p);
      q := q + 1;
    }
    SplicedAt(data, was, p, q, Zeros(q - p));
    SpanUnique(Cut(was, p, end), '\n', '\n', q - p);
  }

  /** trim_back from before `hi`; what comes before `lo` is not blank. */
  method TrimBack(data: array<char>, hi: nat, ghost lo: nat)
    requires lo <= hi <= data.Length && (lo == 0 || data[lo - 1] == '\0')
    modifies data
    ensures var key := TrimEnd(Cut(old(data[..]), lo, hi)); Spliced(data, old(data[..]), lo, hi, key + Zeros(hi - lo - |key|))
  {
    hide Spliced, TrimEnd, Zeros, Cut;
    ghost var was := data[..];
    var p: int := hi - 1;
    NothingSpliced(data, hi);
    while p >= 0 && IsBlank(data[p])
      invariant lo - 1 <= p < hi && Spliced(data, was, p + 1, hi, Zeros(hi - (p + 1)))
      invariant TrimEnd(Cut(was, lo, hi)) == TrimEnd(Cut(was, lo, p + 1))
    {
      SplicedAt(data, was, p + 1, hi, Zeros(hi - (p + 1)));
      TrimmedLast(was, lo, p + 1);
      PutZeroBefore(data, p, hi, was);
      p := p - 1;
    }
    SplicedAt(data, was, p + 1, hi, Zeros(hi - (p + 1)));
    UntrimmedCut(was, lo, p + 1);
    Widen(data, was, lo, p + 1, hi, Zeros(hi - (p + 1)));
  }

  /** The NUL before a stretch of NULs. */
  method PutZeroBefore(data: array<char>, p: nat, hi: nat, ghost was: string)
    requires p < hi && Spliced(data, was, p + 1, hi, Zeros(hi - (p + 1)))
    modifies data
    ensures Spliced(data, was, p, hi, Zeros(hi - p))
  {
    data[p] := '\0';
  }

  /** A stretch taken with what stands before it. */
  lemma Widen(data: array<char>, was: string, lo: nat, a: nat, b: nat, y: string)
    requires Spliced(data, was, a, b, y) && lo <= a
    ensures Spliced(data, was, lo, b, Cut(was, lo, a) + y)
  {}

  lemma UntrimmedCut(s: string, lo: nat, n: nat)
    requires lo <= n <= |s| && (lo == n || !IsBlank(s[n - 1]))
    ensures TrimEnd(Cut(s, lo, n)) == Cut(s, lo, n)
  {}

  lemma TrimmedLast(s: string, lo: nat, n: nat)
    requires lo < n <= |s| && IsBlank(s[n - 1])
    ensures TrimEnd(Cut(s, lo, n)) == TrimEnd(Cut(s, lo, n - 1))
  {
    assert Cut(s, lo, n)[..n - lo - 1] == Cut(s, lo, n - 1);
  }

  lemma TrimmedFirst(s: string, p: nat, n: nat)
    requires p < n <= |s|
    ensures TrimStart(Cut(s, p, n)) == if IsBlank(s[p]) then TrimStart(Cut(s, p + 1, n)) else Cut(s, p, n)
  {
    assert Cut(s, p, n)[1..] == Cut(s, p + 1, n);
  }

  lemma NothingLeft(s: string, n: nat)
    requires n <= |s|
    ensures Cut(s, n, n) == TrimStart(Cut(s, n, n)) == ""
  {}

  /** The `=` and the blanks after it are wiped out. */
  method WipeEquals(data: array<char>, end: nat, eq: nat, ghost n: nat) returns (p: nat)
    requires Terminated(data, end) && eq < n <= end && (n < end ==> data[n] == '\n')
    modifies data
    ensures eq < p <= n && TrimStart(Cut(old(data[..]), eq + 1, n)) == Cut(old(data[..]), p, n)
    ensures Spliced(data, old(data[..]), eq, p, Zeros(p - eq))
  {
    hide Spliced, TrimStart, Zeros, Cut, Splice, Span;
    ghost var was := data[..];
    p := eq;
    NothingSpliced(data, p);
    PutZero(data, p, was, eq);
    p := p + 1;
    SplicedAt(data, was, eq, p, Zeros(p - eq));
    while IsBlank(data[p])
      invariant eq < p <= n && Spliced(data, was, eq, p, Zeros(p - eq)) && data[p] == was[p]
      invariant TrimStart(Cut(was, eq + 1, n)) == TrimStart(Cut(was, p, n))
      decreases n - p
    {
      TrimmedFirst(was, p, n);
      PutZero(data, p, was, eq);
      p := p + 1;
      SplicedAt(data, was, eq, p, Zeros(p - eq));
    }
    if p < n {
      TrimmedFirst(was, p, n);
    } else {
      NothingLeft(was, n);
    }
  }

  /** unescape_quoted_value: the write head stays behind the read head, and the line ends where it did. */
  method UnescapeQuotedValue(data: array<char>, end: nat, start: nat, ghost n: nat) returns (q: nat)
    requires Terminated(data, end) && start < n <= end && (n < end ==> data[n] == '\n')
    requires forall i | start <= i < n :: data[i] != '\n' && data[i] != '\0'
    modifies data
    ensures var value := Unescape(Cut(old(data[..]), start + 1, n));
            && q == start + |value| && q < n && Spliced(data, old(data[..]), start, q, value)
  {
    hide Spliced, Unescape, Escape, Cut;
    ghost var was := data[..];
    q := start;
    var p: nat := start + 1;
    ghost var value := "";
    ghost var all := Unescape(Cut(was, start + 1, n));
    NothingSpliced(data, start);
    assert value + all == all;
    while p < end && data[p] != '"' && data[p] != '\r' && data[p] != '\n'
      invariant start <= q < p <= n && |value| == q - start
      invariant all == value + Unescape(Cut(was, p, n))
      invariant Spliced(data, was, start, q, value)
      invariant forall i | q <= i < data.Length :: data[i] == was[i]
      decreases n - p
    {
      UnescapeStep(was, p, n);
      ghost var c;
      if data[p] == '\\' {
        p := p + 1;
        if data[p] == '\r' || data[p] == '\n' || data[p] == '\0' {
          assert all == value;
          return;
        }
        c := Escape(data[p]);
        Put(data, q, Escape(data[p]), was, start, value);
      } else {
        c := data[p];
        Put(data, q, data[p], was, start, value);
      }
      assert all == (value + [c]) + Unescape(Cut(was, p + 1, n));
      value := value + [c];
      q, p := q + 1, p + 1;
      SplicedAt(data, was, start, q, value);
    }
    UnescapeEnd(was, p, n);
    assert all == value;
  }

  lemma UnescapeEnd(d: string, p: nat, n: nat)
    requires p <= n <= |d| && (p == n || d[p] == '"' || d[p] == '\r')
    ensures Unescape(Cut(d, p, n)) == ""
  {}

  /** One character of a quoted value, or two. */
  lemma UnescapeStep(d: string, p: nat, n: nat)
    requires p < n < |d| && forall i | p <= i < n :: d[i] != '\n' && d[i] != '\0'
    ensures d[p] != '"' && d[p] != '\r' && d[p] != '\\' ==> Unescape(Cut(d, p, n)) == [d[p]] + Unescape(Cut(d, p + 1, n))
    ensures d[p] == '\\' && (p + 1 == n || d[p + 1] == '\r') ==> Unescape(Cut(d, p, n)) == []
    ensures d[p] == '\\' && p + 1 < n && d[p + 1] != '\r' ==>
              Unescape(Cut(d, p, n)) == [Escape(d[p + 1])] + Unescape(Cut(d, p + 2, n))
  {
    assert Cut(d, p, n)[1..] == Cut(d, p + 1, n);
    if p + 1 < n {
      assert Cut(d, p, n)[2..] == Cut(d, p + 2, n);
    }
  }

  // ----- one line -----

  /** A line of the text, still to be split: it begins a string of its own, and ends at `n`. */
  predicate Line(d: string, end: nat, start: nat, n: nat) {
    && start < n <= end < |d| && d[end] == '\0' && (n < end ==> d[n] == '\n')
    && (start == 0 || d[start - 1] == '\0')
    && (forall i | start <= i < end :: d[i] != '\0') && (forall i | start <= i < n :: d[i] != '\n')
  }

  /** The key ends at the first `=`, if the line has one. */
  lemma EqualsInLine(d: string, end: nat, start: nat, n: nat)
    requires Line(d, end, start, n)
    ensures var k := Span(Cut(d, start, end), '=', '\n');
            start + k <= n && Span(Cut(d, start, n), '=', '=') == k && (start + k < n <==> d[start + k] == '=')
    ensures Span(Cut(d, start, end), '\n', '\n') == n - start
  {
    var k := Span(Cut(d, start, end), '=', '\n');
    hide Span;
    SpanIs(Cut(d, start, end), '=', '\n');
    assert n < end ==> Cut(d, start, end)[n - start] == '\n';
    if start + k > n {
      assert false;
    }
    assert start + k < n ==> Cut(d, start, end)[k] == d[start + k];
    assert forall i | 0 <= i < k :: Cut(d, start, n)[i] == Cut(d, start, end)[i];
    SpanUnique(Cut(d, start, n), '=', '=', k);
    SpanUnique(Cut(d, start, end), '\n', '\n', n - start);
  }

  /** Splitting part of a line does not move its end. */
  lemma LineStays(data: array<char>, was: string, end: nat, start: nat, n: nat, p: nat, x: string)
    requires Line(was, end, start, n) && p <= n && Spliced(data, was, start, p, x)
    requires forall i | 0 <= i < |x| :: x[i] != '\n'
    ensures Terminated(data, end) && Span(Cut(data[..], start, end), '\n', '\n') == n - start
  {
    SpanUnique(Cut(data[..], start, end), '\n', '\n', n - start);
  }

  lemma SplicedOver(data: array<char>, was: string, mid: string, a: nat, b: nat, c: nat, x: string, y: string)
    requires a <= b <= c <= |was| && |x| == b - a && mid == Splice(was, a, b, x) && Spliced(data, mid, a, c, y)
    ensures Spliced(data, was, a, c, y)
  {}

  lemma SplicedThen(data: array<char>, was: string, mid: string, a: nat, b: nat, c: nat, x: string, y: string)
    requires a <= b <= c <= |was| && |x| == b - a && mid == Splice(was, a, b, x) && Spliced(data, mid, b, c, y)
    ensures Spliced(data, was, a, c, x + y)
  {
    SpliceTwice(was, a, b, c, x, y);
  }

  lemma CutStays(was: string, a: nat, b: nat, x: string, p: nat, q: nat)
    requires a <= b <= p <= q <= |was| && |x| == b - a
    ensures Cut(Splice(was, a, b, x), p, q) == Cut(was, p, q)
  {}

  lemma ZerosJoin(key: string, i: nat, j: nat)
    ensures (key + Zeros(i)) + Zeros(j) == key + Zeros(i + j)
  {}

  /** The key of a line and the `=` after it. */
  method SplitKey(data: array<char>, end: nat, start: nat, eq: nat, ghost n: nat) returns (p: nat)
    requires Line(data[..], end, start, n) && start <= eq < n
    modifies data
    ensures eq < p <= n && TrimStart(Cut(old(data[..]), eq + 1, n)) == Cut(old(data[..]), p, n)
    ensures var key := TrimEnd(Cut(old(data[..]), start, eq));
            Spliced(data, old(data[..]), start, p, key + Zeros(p - start - |key|))
  {
    hide Spliced, Splice, Cut, TrimEnd, TrimStart, Zeros;
    ghost var was := data[..];
    ghost var key := TrimEnd(Cut(was, start, eq));
    TrimBack(data, eq, start);
    ghost var x := key + Zeros(eq - start - |key|);
    SplicedIs(data, was, start, eq, x);
    SplicedAt(data, was, start, eq, x);
    p := WipeEquals(data, end, eq, n);
    CutStays(was, start, eq, x, eq + 1, n);
    CutStays(was, start, eq, x, p, n);
    SplicedThen(data, was, Splice(was, start, eq, x), start, eq, p, x, Zeros(p - eq));
    ZerosJoin(key, eq - start - |key|, p - eq);
  }

  lemma SplicedIs(data: array<char>, was: string, a: nat, b: nat, x: string)
    requires Spliced(data, was, a, b, x)
    ensures a <= b <= |was| && |x| == b - a && data[..] == Splice(was, a, b, x)
  {}

  /** The value of a line, quoted or not; `kept` tells whether there is one. */
  method SplitValue(data: array<char>, end: nat, p: nat, ghost n: nat) returns (kept: bool, q: nat)
    requires Terminated(data, end) && 0 < p <= n <= end && data[p - 1] == '\0' && (n < end ==> data[n] == '\n')
    requires (forall i | p <= i < n :: data[i] != '\n') && (forall i | p <= i < end :: data[i] != '\0')
    requires p < n ==> !IsBlank(data[p])
    modifies data
    ensures var value := ValueOf(Cut(old(data[..]), p, n));
            && kept == (value != "") && |value| <= n - p
            && (kept ==> Spliced(data, old(data[..]), p, n, value + Zeros(n - p - |value|)))
            && (kept ==> q == n) && (!kept ==> data[..] == old(data[..]))
  {
    hide Spliced, Splice, Unescape, TrimEnd, Zeros, Span;
    ghost var was := data[..];
    ghost var rest := Cut(was, p, n);
    if data[p] == '\n' || data[p] == '\0' {
      kept, q := false, p;
    } else if data[p] == '"' {
      assert rest[1..] == Cut(was, p + 1, n);
      ghost var value := Unescape(rest[1..]);
      q := UnescapeQuotedValue(data, end, p, n);
      SplicedIs(data, was, p, q, value);
      SplicedAt(data, was, p, q, value);
      kept := q != p;
      if kept {
        LineEnds(data[..], end, q, n);
        q := DiscardLine(data, end, q);
        SplicedThen(data, was, Splice(was, p, p + |value|, value), p, p + |value|, n, value, Zeros(n - p - |value|));
      } else {
        NothingChanged(was, p);
      }
    } else {
      LineEnds(data[..], end, p, n);
      q := Strcspn(data, end, p, '\n', '\n');
      TrimBack(data, q, p);
      FirstStays(rest);
      kept := true;
    }
  }

  lemma LineEnds(d: string, end: nat, p: nat, n: nat)
    requires p <= n <= end <= |d| && (n < end ==> d[n] == '\n') && forall i | p <= i < n :: d[i] != '\n'
    ensures Span(Cut(d, p, end), '\n', '\n') == n - p
  {
    SpanUnique(Cut(d, p, end), '\n', '\n', n - p);
  }

  lemma NothingChanged(d: string, a: nat)
    requires a <= |d|
    ensures Splice(d, a, a, "") == d
  {}

  lemma FirstStays(s: string)
    requires s != "" && !IsBlank(s[0])
    ensures TrimEnd(s) != ""
  {
    TrimEndIs(s);
  }

  lemma PairIs(d: string, start: nat, n: nat, eq: nat)
    requires start <= eq <= n <= |d| && Span(Cut(d, start, n), '=', '=') == eq - start
    ensures PairOf(Cut(d, start, n)) ==
            if eq == n then []
            else
              var value := ValueOf(TrimStart(Cut(d, eq + 1, n)));
              if value == "" then [] else [Pair(TrimEnd(Cut(d, start, eq)), value)]
  {
    hide Span, TrimEnd, TrimStart, ValueOf;
    assert Cut(d, start, n)[..eq - start] == Cut(d, start, eq);
    if eq < n {
      assert Cut(d, start, n)[eq - start + 1..] == Cut(d, eq + 1, n);
    }
  }

  lemma NothingKept(k: nat)
    ensures Strings(Zeros(k)) == Flat([])
  {
    StringsZeros(k);
  }

  lemma PairKept(key: string, i: nat, value: string, j: nat)
    requires i > 0 && value != "" && '\0' !in key && '\0' !in value
    ensures Strings((key + Zeros(i)) + (value + Zeros(j))) == Flat([Pair(key, value)])
  {
    hide Strings, Zeros;
    StringsPair(key, i, value, j);
    assert (key + Zeros(i)) + (value + Zeros(j)) == key + Zeros(i) + value + Zeros(j);
    assert Flat([Pair(key, value)]) == StringsOf(Pair(key, value)) + Flat([]);
  }

  lemma KeyClean(d: string, end: nat, start: nat, n: nat, eq: nat)
    requires Line(d, end, start, n) && start <= eq < n
    ensures var key := TrimEnd(Cut(d, start, eq)); forall i | 0 <= i < |key| :: key[i] != '\n' && key[i] != '\0'
  {
    TrimEndIs(Cut(d, start, eq));
  }

  lemma ValueClean(rest: string)
    requires '\0' !in rest
    ensures '\0' !in ValueOf(rest)
  {
    if rest != "" && rest[0] == '"' {
      UnescapeClean(rest[1..]);
    } else {
      TrimEndIs(rest);
    }
  }

  /** With the key split off, the rest of the line is as it was, behind a NUL. */
  lemma RestIs(data: array<char>, was: string, end: nat, start: nat, n: nat, eq: nat, p: nat, key: string)
    requires Line(was, end, start, n) && start <= eq < p <= n && |key| <= eq - start
    requires TrimStart(Cut(was, eq + 1, n)) == Cut(was, p, n)
    requires Spliced(data, was, start, p, key + Zeros(p - start - |key|))
    ensures Terminated(data, end) && data[p - 1] == '\0' && (n < end ==> data[n] == '\n')
    ensures (forall i | p <= i < n :: data[i] != '\n') && (forall i | p <= i < end :: data[i] != '\0')
    ensures p < n ==> !IsBlank(data[p])
    ensures Cut(data[..], p, n) == Cut(was, p, n) && '\0' !in Cut(was, p, n)
  {
    hide TrimStart;
    TrimStartIs(Cut(was, eq + 1, n));
    if p < n {
      assert Cut(was, p, n)[0] == was[p];
    }
    var x := key + Zeros(p - start - |key|);
    assert data[p - 1] == data[..][p - 1] == x[|x| - 1];
    assert forall i | p <= i < data.Length :: data[i] == data[..][i] == was[i];
  }

  lemma NoBreaks(key: string, k: nat)
    requires forall i | 0 <= i < |key| :: key[i] != '\n'
    ensures var x := key + Zeros(k); forall i | 0 <= i < |x| :: x[i] != '\n'
  {}

  /** The default case of split_data: a whole line becomes its key and value, or nothing. */
  method SplitLine(data: array<char>, end: nat, start: nat, ghost n: nat) returns (p: nat, ghost body: string)
    requires Line(data[..], end, start, n)
    modifies data
    ensures p == n && Spliced(data, old(data[..]), start, n, body)
    ensures Strings(body) == Flat(PairOf(Cut(old(data[..]), start, n)))
  {
    hide Spliced, Splice, Cut, Strings, Flat, PairOf, TrimEnd, TrimStart, ValueOf, Zeros, Span;
    ghost var was := data[..];
    EqualsInLine(was, end, start, n);
    p := Strcspn(data, end, start, '=', '\n');
    ghost var eq := p;
    PairIs(was, start, n, eq);
    if data[p] != '=' {
      p := DiscardLine(data, end, start);
      body := Zeros(n - start);
      NothingKept(n - start);
      return;
    }
    ghost var key := TrimEnd(Cut(was, start, eq));
    p := SplitKey(data, end, start, p, n);
    ghost var from := p;
    ghost var x := key + Zeros(from - start - |key|);
    ghost var value := ValueOf(Cut(was, from, n));
    RestIs(data, was, end, start, n, eq, from, key);
    ValueClean(Cut(was, from, n));
    KeyClean(was, end, start, n, eq);
    NoBreaks(key, from - start - |key|);
    LineStays(data, was, end, start, n, from, x);
    SplicedIs(data, was, start, from, x);
    ghost var mid := data[..];
    var kept;
    kept, p := SplitValue(data, end, p, n);
    if !kept {
      p := DiscardLine(data, end, start);
      SplicedOver(data, was, mid, start, from, n, x, Zeros(n - start));
      body := Zeros(n - start);
      NothingKept(n - start);
    } else {
      SplicedThen(data, was, mid, start, from, n, x, value + Zeros(n - from - |value|));
      body := x + (value + Zeros(n - from - |value|));
      PairKept(key, from - start - |key|, value, n - from - |value|);
    }
  }

  // ----- the whole text -----

  /** Memory split up to `p`: its strings, then the items still to come, are the items of the text. */
  ghost predicate Splitting(d: string, end: nat, p: nat, text: string) {
    && p <= end < |d| && d[end] == '\0'
    && Strings(Cut(d, 0, p)) + Flat(Items(Cut(d, p, end))) == Flat(Items(text))
    && (p == 0 || d[p - 1] == '\0' || p == end || d[p] == '\n' || d[p] == '\0')
    && (forall i | p < i < end :: d[i] != '\0')
  }

  /** A stretch that has been split holds the strings of the items it stood for. */
  lemma Advance(d: string, was: string, end: nat, p: nat, q: nat, body: string, items: seq<Item>, text: string)
    requires Splitting(was, end, p, text) && p <= q <= end < |d| && Cut(d, 0, q) == Cut(was, 0, p) + body
    requires p == 0 || was[p - 1] == '\0' || body == "" || body[0] == '\0'
    requires Items(Cut(was, p, end)) == items + Items(Cut(d, q, end)) && Strings(body) == Flat(items)
    ensures Strings(Cut(d, 0, q)) + Flat(Items(Cut(d, q, end))) == Flat(Items(text))
  {
    hide Items, Flat, Strings, Cut;
    var before, rest := Cut(was, 0, p), Items(Cut(d, q, end));
    CutLast(was, p);
    StringsConcat(before, body);
    FlatConcat(items, rest);
    JoinStrings(Strings(before), Flat(items), Flat(rest));
  }

  lemma CutLast(d: string, p: nat)
    requires p <= |d|
    ensures p > 0 ==> Cut(d, 0, p)[p - 1] == d[p - 1]
  {}

  lemma JoinStrings(a: seq<string>, b: seq<string>, c: seq<string>)
    ensures (a + b) + c == a + (b + c)
  {}

  /** The memory on both sides of a stretch that has been split. */
  lemma SplicedCuts(data: array<char>, was: string, a: nat, b: nat, end: nat, x: string)
    requires Spliced(data, was, a, b, x) && b <= end <= |was|
    ensures data.Length == |was| && Cut(data[..], b, end) == Cut(was, b, end) && Cut(data[..], 0, b) == Cut(was, 0, a) + x
    ensures (forall i | b <= i < data.Length :: data[i] == was[i]) && (x != "" ==> data[b - 1] == x[|x| - 1])
  {
    assert forall i | 0 <= i < data.Length :: data[i] == data[..][i];
  }

  lemma CutAfter(d: string, p: nat, k: nat, end: nat)
    requires p + k <= end <= |d|
    ensures After(Cut(d, p, end), k) == if p + k < end then Cut(d, p + k + 1, end) else ""
    ensures Cut(d, p, end)[k..] == Cut(d, p + k, end) && Cut(d, p, end)[..k] == Cut(d, p, p + k)
    ensures p < end ==> Cut(d, p, end)[0] == d[p]
  {}

  lemma BlankAt(d: string, p: nat, end: nat)
    requires p < end <= |d| && (IsBlank(d[p]) || d[p] == '\n' || d[p] == '\0')
    ensures Items(Cut(d, p, end)) == [] + Items(Cut(d, p + 1, end))
  {
    CutAfter(d, p, 1, end);
  }

  /** White space and what is already a NUL. */
  method SplitBlank(data: array<char>, end: nat, p: nat, ghost text: string)
    requires Splitting(data[..], end, p, text) && p < end
    requires IsBlank(data[p]) || data[p] == '\n' || data[p] == '\0'
    modifies data
    ensures Splitting(data[..], end, p + 1, text)
  {
    hide Items, Flat, Strings, Splice, Spliced, Cut;
    ghost var was := data[..];
    BlankAt(was, p, end);
    OneZero();
    NothingSpliced(data, p);
    Put(data, p, '\0', was, p, "");
    assert "" + ['\0'] == ['\0'];
    SplicedCuts(data, was, p, p + 1, end, ['\0']);
    Advance(data[..], was, end, p, p + 1, ['\0'], [], text);
  }

  lemma OneZero()
    ensures Strings(['\0']) == Flat([])
  {
    assert ['\0'] == Zeros(1);
    StringsZeros(1);
  }

  lemma HeaderString(name: string)
    requires '\0' !in name
    ensures Strings("[" + name) == Flat([Section(name)])
  {
    StringsOne("[" + name);
    assert Flat([Section(name)]) == StringsOf(Section(name)) + Flat([]);
  }

  /** A header, and what is to come when a NUL has been put after it. */
  lemma HeaderAt(d: string, d': string, p: nat, q: nat, end: nat)
    requires p < end < |d| && d[p] == '[' && q == p + Span(Cut(d, p, end), ']', '\n') && d' == d[q := '\0']
    ensures p < q && Items(Cut(d, p, end)) == [Section(Cut(d, p + 1, q))] + Items(Cut(d', q, end))
    ensures Cut(d', 0, q) == Cut(d, 0, p) + ("[" + Cut(d, p + 1, q))
  {
    hide Span, Cut;
    CutAfter(d, p, q - p, end);
    HeaderEnds(Cut(d, p, end));
    HeaderCuts(d, p, q, end);
    if q < end {
      CutAfter(d', q, 1, end);
    }
  }

  lemma HeaderCuts(d: string, p: nat, q: nat, end: nat)
    requires p < q <= end < |d| && d[p] == '['
    ensures var d' := d[q := '\0'];
            && Cut(d, p, end)[1..q - p] == Cut(d, p + 1, q) && Cut(d', 0, q) == Cut(d, 0, p) + ("[" + Cut(d, p + 1, q))
            && (q < end ==> Cut(d', q + 1, end) == Cut(d, q + 1, end)) && (q == end ==> Cut(d', q, end) == "")
  {
    CutCut(d, p, q, end);
    assert Cut(d[q := '\0'], 0, q) == Cut(d, 0, p) + ("[" + Cut(d, p + 1, q));
  }

  lemma CutCut(d: string, p: nat, q: nat, end: nat)
    requires p < q <= end <= |d|
    ensures Cut(d, p, end)[1..q - p] == Cut(d, p + 1, q)
  {
    var x, y := Cut(d, p, end)[1..q - p], Cut(d, p + 1, q);
    assert |x| == |y|;
    forall k | 0 <= k < |y| ensures x[k] == y[k] {
      assert x[k] == Cut(d, p, end)[k + 1];
    }
  }

  lemma HeaderEnds(s: string)
    requires s != "" && s[0] == '['
    ensures var n := Span(s, ']', '\n'); n > 0 && Items(s) == [Section(s[1..n])] + Items(After(s, n))
  {}

  /** A section header: the NUL goes over its bracket, or over the end of its line. */
  method SplitHeader(data: array<char>, end: nat, p: nat, ghost text: string) returns (q: nat)
    requires Splitting(data[..], end, p, text) && p < end && data[p] == '['
    modifies data
    ensures p < q <= end && Splitting(data[..], end, q, text)
  {
    hide Items, Flat, Strings, Cut, Span;
    ghost var was := data[..];
    q := Strcspn(data, end, p, ']', '\n');
    data[q] := '\0';
    HeaderAt(was, data[..], p, q, end);
    ghost var name := Cut(was, p + 1, q);
    CutClean(was, p + 1, q);
    HeaderString(name);
    Advance(data[..], was, end, p, q, "[" + name, [Section(name)], text);
  }

  lemma CutClean(d: string, a: nat, b: nat)
    requires a <= b <= |d| && forall i | a <= i < b :: d[i] != '\0'
    ensures '\0' !in Cut(d, a, b)
  {}

  /** A line that is not a header, from its first character to its end. */
  lemma LineAt(d: string, p: nat, end: nat)
    requires p < end <= |d| && d[p] != '\n'
    ensures var q := p + Span(Cut(d, p, end), '\n', '\n');
            && p < q <= end && (q < end ==> d[q] == '\n') && (forall i | p <= i < q :: d[i] != '\n')
            && (d[p] == ';' ==> Items(Cut(d, p, end)) == [] + Items(Cut(d, q, end)))
            && (d[p] !in ['[', ';', '\0'] && !IsBlank(d[p]) ==>
                  Items(Cut(d, p, end)) == PairOf(Cut(d, p, q)) + Items(Cut(d, q, end)))
  {
    hide Items, PairOf, Span, Cut;
    CutAfter(d, p, Span(Cut(d, p, end), '\n', '\n'), end);
    PlainItems(Cut(d, p, end));
    BreakAt(d, p, end);
  }

  lemma BreakAt(d: string, p: nat, end: nat)
    requires p < end <= |d|
    ensures var q := p + Span(Cut(d, p, end), '\n', '\n');
            (q < end ==> d[q] == '\n') && forall i | p <= i < q :: d[i] != '\n'
  {
    hide Span;
    var s := Cut(d, p, end);
    SpanIs(s, '\n', '\n');
    assert forall i | p <= i < end :: d[i] == s[i - p];
  }

  lemma PlainItems(s: string)
    requires s != "" && s[0] != '\n'
    ensures var n := Span(s, '\n', '\n');
            && n > 0 && (s[0] == ';' ==> Items(s) == [] + Items(s[n..]))
            && (s[0] !in ['[', ';', '\0'] && !IsBlank(s[0]) ==> Items(s) == PairOf(s[..n]) + Items(s[n..]))
  {
    hide PairOf;
  }

  /** A comment line. */
  method SplitComment(data: array<char>, end: nat, p: nat, ghost text: string) returns (q: nat)
    requires Splitting(data[..], end, p, text) && p < end && data[p] == ';'
    modifies data
    ensures p < q <= end && Splitting(data[..], end, q, text)
  {
    hide Items, Flat, Strings, Cut, Span, Spliced, Splice, Zeros, PairOf;
    ghost var was := data[..];
    LineAt(was, p, end);
    q := DiscardLine(data, end, p);
    NothingKept(q - p);
    SplicedCuts(data, was, p, q, end, Zeros(q - p));
    Advance(data[..], was, end, p, q, Zeros(q - p), [], text);
  }

  /** Any other line. */
  method SplitPlain(data: array<char>, end: nat, p: nat, ghost text: string) returns (q: nat)
    requires Splitting(data[..], end, p, text) && p < end
    requires !IsBlank(data[p]) && data[p] != '\n' && data[p] != '\0' && data[p] != '[' && data[p] != ';'
    modifies data
    ensures p < q <= end && Splitting(data[..], end, q, text)
  {
    hide Items, Flat, Strings, Cut, Span, Spliced, Splice, PairOf;
    ghost var was := data[..];
    LineAt(was, p, end);
    ghost var n, body := p + Span(Cut(was, p, end), '\n', '\n'), "";
    q, body := SplitLine(data, end, p, n);
    SplicedCuts(data, was, p, n, end, body);
    Advance(data[..], was, end, p, n, body, PairOf(Cut(was, p, n)), text);
  }

  /** split_data. */
  method SplitData(data: array<char>, end: nat)
    requires Terminated(data, end) && forall i | 0 <= i < end :: data[i] != '\0'
    modifies data
    ensures Terminated(data, end) && Strings(Cut(data[..], 0, end)) == Flat(Document(Cut(old(data[..]), 0, end)))
  {
    hide Items, Flat, Strings, Document;
    ghost var text := Cut(data[..], 0, end);
    ItemsIsDocument(text);
    var p: nat := 0;
    NothingSplit(data[..], end);
    while p < end
      invariant p <= end && Splitting(data[..], end, p, text)
      decreases end - p
    {
      match data[p] {
        case '\r' | '\n' | '\t' | ' ' | '\0' =>
          SplitBlank(data, end, p, text);
          p := p + 1;
        case '[' => p := SplitHeader(data, end, p, text);
        case ';' => p := SplitComment(data, end, p, text);
        case _ => p := SplitPlain(data, end, p, text);
      }
    }
    AllSplit(data[..], end);
  }

  lemma NothingSplit(d: string, end: nat)
    requires end < |d| && d[end] == '\0' && forall i | 0 <= i < end :: d[i] != '\0'
    ensures Splitting(d, end, 0, Cut(d, 0, end))
  {
    assert Cut(d, 0, 0) == "";
  }

  lemma AllSplit(d: string, end: nat)
    requires end <= |d|
    ensures Flat(Items(Cut(d, end, end))) == []
  {}

  // ----- lookup -----

  /** The string at a place in memory: up to the next NUL. */
  function StringAt(d: string, end: nat, p: nat): string
    requires p <= end <= |d|
  {
    Cut(d, p, p + Span(Cut(d, p, end), '\0', '\0'))
  }

  lemma {:induction false} StringsAfterZeros(d: string, p: nat, q: nat, end: nat)
    requires p <= q <= end <= |d| && forall i | p <= i < q :: d[i] == '\0'
    ensures Strings(Cut(d, p, end)) == Strings(Cut(d, q, end))
    decreases q - p
  {
    if p < q {
      CutAfter(d, p, 1, end);
      StringsAfterZeros(d, p + 1, q, end);
    }
  }

  lemma FirstString(d: string, end: nat, p: nat)
    requires p < end <= |d| && d[p] != '\0'
    ensures var n := Span(Cut(d, p, end), '\0', '\0');
            n > 0 && StringAt(d, end, p) != "" && StringAt(d, end, p)[0] == d[p]
            && Strings(Cut(d, p, end)) == [StringAt(d, end, p)] + Strings(Cut(d, p + n, end))
  {
    var s := Cut(d, p, end);
    CutAfter(d, p, Span(s, '\0', '\0'), end);
  }

  lemma LastString(d: string, end: nat)
    requires end <= |d|
    ensures StringAt(d, end, end) == "" && Strings(Cut(d, end, end)) == []
  {}

  /** next: from the start of a string, or from the end, to the start of the one after it. */
  method Next(data: array<char>, end: nat, p: nat) returns (q: nat)
    requires Terminated(data, end) && p <= end
    ensures p <= q <= end && (q == end || data[q] != '\0') && (p < end ==> p < q)
    ensures var d := data[..];
            Strings(Cut(d, p, end)) ==
            (if p < end && d[p] != '\0' then [StringAt(d, end, p)] else []) + Strings(Cut(d, q, end))
  {
    hide Strings, Cut, Span, StringAt;
    ghost var d := data[..];
    q := p;
    while data[q] != '\0'
      invariant p <= q <= end && forall i | p <= i < q :: d[i] != '\0'
      decreases end - q
    {
      q := q + 1;
    }
    ghost var nul := q;
    SpanToNul(d, p, q, end);
    if p < nul {
      FirstString(d, end, p);
    }
    while q < end && data[q] == '\0'
      invariant nul <= q <= end && (forall i | nul <= i < q :: d[i] == '\0')
    {
      q := q + 1;
    }
    StringsAfterZeros(d, nul, q, end);
    NoMore(Strings(Cut(d, q, end)));
  }

  lemma NoMore(a: seq<string>)
    ensures [] + a == a
  {}

  lemma SpanToNul(d: string, p: nat, q: nat, end: nat)
    requires p <= q <= end < |d| && d[q] == '\0' && forall i | p <= i < q :: d[i] != '\0'
    ensures Span(Cut(d, p, end), '\0', '\0') == q - p
  {
    SpanUnique(Cut(d, p, end), '\0', '\0', q - p);
  }

  /** strcmpci, against a string in memory. */
  method StrCmpCi(data: array<char>, end: nat, p: nat, key: string) returns (same: bool)
    requires Terminated(data, end) && p <= end && '\0' !in key
    ensures var s := StringAt(data[..], end, p); same == Same(s, key) == Same(key, s)
  {
    hide Span;
    var i: nat := 0;
    ghost var s := StringAt(data[..], end, p);
    StringIs(data[..], end, p);
    while true
      invariant i <= |s| && i <= |key| && forall j | 0 <= j < i :: Lower(s[j]) == Lower(key[j])
      decreases |s| - i
    {
      var a := data[p + i];
      var b := if i < |key| then key[i] else '\0';
      assert i < |s| ==> a == s[i] && a != '\0';
      assert i == |s| ==> a == '\0';
      assert i < |key| ==> key[i] in key;
      LowerNul(a);
      LowerNul(b);
      if Lower(a) != Lower(b) || a == '\0' {
        return Lower(a) == Lower(b);
      }
      i := i + 1;
    }
  }

  lemma LowerNul(c: char)
    ensures Lower(c) == '\0' <==> c == '\0'
  {}

  lemma StringIs(d: string, end: nat, p: nat)
    requires p <= end < |d| && d[end] == '\0'
    ensures var s := StringAt(d, end, p);
            p + |s| <= end && d[p + |s|] == '\0' && forall i | 0 <= i < |s| :: s[i] == d[p + i] && s[i] != '\0'
    ensures forall j | p <= j < p + |StringAt(d, end, p)| :: d[j] != '\0'
  {
    SpanIs(Cut(d, p, end), '\0', '\0');
    hide Span;
    assert forall j | p <= j < p + |StringAt(d, end, p)| :: d[j] == Cut(d, p, end)[j - p];
  }

  /** Where a section begins: nowhere yet, or at a place in memory. */
  datatype Place = Nowhere | At(index: nat)

  function NameAt(d: string, end: nat, place: Place): string
    requires end <= |d| && (place.At? ==> place.index <= end)
  {
    if place.Nowhere? then "" else StringAt(d, end, place.index)
  }

  method SectionMatches(data: array<char>, end: nat, section: Option<string>, current: Place) returns (r: bool)
    requires Terminated(data, end) && (current.At? ==> current.index <= end)
    requires section.Some? ==> '\0' !in section.value
    ensures r == InSection(section, NameAt(data[..], end, current))
  {
    if section.None? {
      return true;
    }
    if current.Nowhere? {
      return section.value == "";
    }
    r := StrCmpCi(data, end, current.index, section.value);
  }

  /** The walk past a header, and past a name and its value. */
  lemma WalkStep(d: string, end: nat, p: nat, current: string, section: Option<string>, key: string, more: seq<string>)
    requires p < end < |d| && d[p] != '\0' && d[end] == '\0' && Strings(Cut(d, p, end)) == [StringAt(d, end, p)] + more
    ensures d[p] == '[' ==> Walk(Strings(Cut(d, p, end)), current, section, key) ==
                            Walk(more, StringAt(d, end, p + 1), section, key)
    ensures d[p] != '[' ==>
              Walk(Strings(Cut(d, p, end)), current, section, key) ==
              if InSection(section, current) && Same(StringAt(d, end, p), key) then Some(if more == [] then "" else more[0])
              else Walk(if more == [] then [] else more[1..], current, section, key)
  {
    hide Span, Strings, Cut, InSection, Same;
    FirstString(d, end, p);
    var ss := [StringAt(d, end, p)] + more;
    assert ss[1..] == more;
    if more != [] {
      assert ss[2..] == more[1..];
    }
    if d[p] == '[' {
      NameInside(d, end, p);
    }
  }

  lemma NameInside(d: string, end: nat, p: nat)
    requires p < end < |d| && d[p] != '\0' && d[end] == '\0'
    ensures StringAt(d, end, p) != "" && StringAt(d, end, p)[1..] == StringAt(d, end, p + 1)
  {
    FirstString(d, end, p);
    StringIs(d, end, p);
    hide Span;
    SpanToNul(d, p + 1, p + |StringAt(d, end, p)|, end);
  }

  /** ini_get: where the value found begins. */
  method IniGet(data: array<char>, end: nat, section: Option<string>, key: string) returns (val: Place)
    requires Terminated(data, end) && '\0' !in key && (section.Some? ==> '\0' !in section.value)
    ensures val.At? ==> val.index <= end
    ensures Walk(Strings(Cut(data[..], 0, end)), "", section, key) ==
            if val.At? then Some(StringAt(data[..], end, val.index)) else None
  {
    hide Walk, Strings, Cut, Span, StringAt, InSection, Same;
    ghost var d := data[..];
    ghost var goal := Walk(Strings(Cut(d, 0, end)), "", section, key);
    var current := Nowhere;
    var p: nat := 0;
    if data[p] == '\0' {
      p := Next(data, end, p);
      NoMore(Strings(Cut(d, p, end)));
    }
    while p < end
      invariant p <= end && (p == end || d[p] != '\0') && (current.At? ==> current.index <= end)
      invariant Walk(Strings(Cut(d, p, end)), NameAt(d, end, current), section, key) == goal
      decreases end - p
    {
      ghost var name := NameAt(d, end, current);
      if data[p] == '[' {
        current := At(p + 1);
        ghost var header := p;
        p := Next(data, end, p);
        WalkStep(d, end, header, name, section, key, Strings(Cut(d, p, end)));
      } else {
        var v := Next(data, end, p);
        WalkStep(d, end, p, name, section, key, Strings(Cut(d, v, end)));
        var inside := SectionMatches(data, end, section, current);
        if inside {
          var same := StrCmpCi(data, end, p, key);
          if same {
            ValueAt(d, end, v);
            return At(v);
          }
        }
        p := Next(data, end, v);
        ValueGone(d, end, v, p);
      }
    }
    WalkEnd(d, end, NameAt(d, end, current), section, key);
    val := Nowhere;
  }

  lemma ValueAt(d: string, end: nat, v: nat)
    requires v <= end < |d| && (v == end || d[v] != '\0')
    ensures var more := Strings(Cut(d, v, end)); StringAt(d, end, v) == if more == [] then "" else more[0]
  {
    if v < end {
      FirstString(d, end, v);
    } else {
      LastString(d, end);
    }
  }

  lemma ValueGone(d: string, end: nat, v: nat, p: nat)
    requires v <= p <= end < |d| && (v == end || d[v] != '\0')
    requires Strings(Cut(d, v, end)) == (if v < end && d[v] != '\0' then [StringAt(d, end, v)] else []) + Strings(Cut(d, p, end))
    ensures var more := Strings(Cut(d, v, end)); Strings(Cut(d, p, end)) == if more == [] then [] else more[1..]
  {
    hide StringAt;
    LastString(d, end);
  }

  lemma WalkEnd(d: string, end: nat, current: string, section: Option<string>, key: string)
    requires end <= |d|
    ensures Walk(Strings(Cut(d, end, end)), current, section, key) == None
  {}

  /** ini_load and ini_get: a value looked up in a text. */
  method Query(text: string, section: Option<string>, key: string) returns (r: Option<string>)
    requires '\0' !in text && '\0' !in key && (section.Some? ==> '\0' !in section.value)
    ensures r == Walk(Flat(Document(text)), "", section, key)
    ensures Keyed(Document(text)) ==> r == Lookup(Document(text), "", section, key)
  {
    hide Walk, Flat, Document, Lookup, Strings, Cut, Span, StringAt;
    var end := |text|;
    var data := new char[end + 1](i requires 0 <= i <= end => if i < end then text[i] else '\0');
    Loaded(data[..], text);
    SplitData(data, end);
    var val := IniGet(data, end, section, key);
    DocumentNamed(text);
    if Keyed(Document(text)) {
      WalkIsLookup(Document(text), "", section, key);
    }
    if val.Nowhere? {
      return None;
    }
    r := Some("");
    var i: nat := val.index;
    StringIs(data[..], end, i);
    ghost var s := StringAt(data[..], end, i);
    while data[i] != '\0'
      invariant val.index <= i <= end && i - val.index <= |s| && r == Some(s[..i - val.index])
      decreases end - i
    {
      assert s[..i - val.index + 1] == s[..i - val.index] + [data[i]];
      r := Some(r.value + [data[i]]);
      i := i + 1;
    }
    WholeString(s, data[..], val.index, i);
  }

  lemma WholeString(s: string, d: string, from: nat, i: nat)
    requires from <= i < |d| && d[i] == '\0' && i - from <= |s| && from + |s| <= |d|
    requires forall j | from <= j < from + |s| :: d[j] != '\0'
    ensures s[..i - from] == s
  {}

  lemma Loaded(d: string, text: string)
    requires |d| == |text| + 1 && forall i | 0 <= i < |text| :: d[i] == text[i]
    ensures Cut(d, 0, |text|) == text
  {}
}
