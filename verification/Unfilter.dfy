/** The PNG scanline filters of section 6 of RFC 2083 and their removal by upng.c, in place or not. */
module Unfilter {
  import opened Bits

  function Abs(x: int): nat {
    if x < 0 then -x else x
  }

  /** paeth_predictor. */
  function PaethPredictor(a: Byte, b: Byte, c: Byte): (r: Byte)
    ensures r == a || r == b || r == c
    ensures var p := a + b - c; Abs(p - r) <= Abs(p - a) && Abs(p - r) <= Abs(p - b) && Abs(p - r) <= Abs(p - c)
    ensures var p := a + b - c; r != a ==> Abs(p - r) < Abs(p - a) && (r != b ==> Abs(p - r) < Abs(p - b))
  {
    var p := a + b - c;
    var pa := if p > a then p - a else a - p;
    var pb := if p > b then p - b else b - p;
    var pc := if p > c then p - c else c - p;
    if pa <= pb && pa <= pc then a else if pb <= pc then b else c
  }

  /** The filter types of section 6.1 to 6.6; the arguments are the bytes to the left, above, and above left. */
  function Predict(filter: Byte, left: Byte, up: Byte, corner: Byte): Byte {
    match filter
    case 1 => left
    case 2 => up
    case 3 => (left + up) / 2
    case 4 => PaethPredictor(left, up, corner)
    case _ => 0
  }

  /** The byte of the pixel to the left of byte `k`; before the first pixel everything is zero. */
  function Left(line: seq<Byte>, k: nat, bytewidth: nat): Byte
    requires 0 < bytewidth && k <= |line|
  {
    if k < bytewidth then 0 else line[k - bytewidth]
  }

  /** A scanline as the filter leaves it. */
  function Filtered(filter: Byte, bytewidth: nat, prev: seq<Byte>, line: seq<Byte>): (r: seq<Byte>)
    requires 0 < bytewidth && |prev| == |line|
    ensures |r| == |line|
  {
    seq<Byte>(|line|, k requires 0 <= k < |line| =>
      (line[k] + 256 - Predict(filter, Left(line, k, bytewidth), prev[k], Left(prev, k, bytewidth))) % 256)
  }

  /** The first `n` bytes of the line whose filtered form is `scan`. */
  function Restored(filter: Byte, bytewidth: nat, prev: seq<Byte>, scan: seq<Byte>, n: nat): (r: seq<Byte>)
    requires 0 < bytewidth && |prev| == |scan| && n <= |scan|
    ensures |r| == n
  {
    if n == 0 then []
    else
      var line := Restored(filter, bytewidth, prev, scan, n - 1);
      line + [(scan[n - 1] + Predict(filter, Left(line, n - 1, bytewidth), prev[n - 1], Left(prev, n - 1, bytewidth))) % 256]
  }

  lemma {:induction false} RestoredFiltered(filter: Byte, bytewidth: nat, prev: seq<Byte>, line: seq<Byte>, n: nat)
    requires 0 < bytewidth && |prev| == |line| && n <= |line|
    ensures Restored(filter, bytewidth, prev, Filtered(filter, bytewidth, prev, line), n) == line[..n]
  {
    hide Predict;
    if n > 0 {
      RestoredFiltered(filter, bytewidth, prev, line, n - 1);
      assert Left(line[..n - 1], n - 1, bytewidth) == Left(line, n - 1, bytewidth);
    }
  }

  lemma {:induction false} RestoredAt(filter: Byte, bytewidth: nat, prev: seq<Byte>, scan: seq<Byte>, n: nat, k: nat)
    requires 0 < bytewidth && |prev| == |scan| && k < n <= |scan|
    ensures var line := Restored(filter, bytewidth, prev, scan, n);
            line[k] == (scan[k] + Predict(filter, Left(line, k, bytewidth), prev[k], Left(prev, k, bytewidth))) % 256
  {
    hide Predict;
    if k < n - 1 {
      RestoredAt(filter, bytewidth, prev, scan, n - 1, k);
    }
  }

  lemma FilteredRestored(filter: Byte, bytewidth: nat, prev: seq<Byte>, scan: seq<Byte>)
    requires 0 < bytewidth && |prev| == |scan|
    ensures Filtered(filter, bytewidth, prev, Restored(filter, bytewidth, prev, scan, |scan|)) == scan
  {
    hide Predict, Restored;
    var line := Restored(filter, bytewidth, prev, scan, |scan|);
    forall k | 0 <= k < |scan| ensures Filtered(filter, bytewidth, prev, line)[k] == scan[k] {
      RestoredAt(filter, bytewidth, prev, scan, |scan|, k);
    }
  }

  /** The line above the first one reads as zeros. */
  function Zeros(n: nat): (r: seq<Byte>)
    ensures |r| == n
  {
    seq<Byte>(n, k requires 0 <= k < n => 0)
  }

  /** The last line of the rows so far. */
  function Above(rows: seq<Byte>, linebytes: nat): (r: seq<Byte>)
    requires rows == [] || linebytes <= |rows|
    ensures |r| == linebytes
  {
    if rows == [] then Zeros(linebytes) else rows[|rows| - linebytes..]
  }

  // ----- whole images -----

  /** The size of `h` lines of `n` bytes. */
  function Lines(n: nat, h: nat): (r: nat)
    ensures if h > 0 then r >= n else r == 0
  {
    if h == 0 then 0 else Lines(n, h - 1) + n
  }

  lemma {:induction false} LinesIs(n: nat, h: nat)
    ensures Lines(n, h) == n * h
  {
    if h > 0 {
      LinesIs(n, h - 1);
    }
  }

  lemma LinesStep(n: nat, h: nat)
    requires h > 0
    ensures Lines(n, h) == Lines(n, h - 1) + n
  {}

  /** An image of `h` lines as it is stored: each line filtered, and preceded by its filter type. */
  function FilterImage(types: seq<Byte>, image: seq<Byte>, linebytes: nat, bytewidth: nat, h: nat): (r: seq<Byte>)
    requires 0 < bytewidth && 0 < linebytes && h <= |types| && |image| == Lines(linebytes, h)
    ensures |r| == Lines(1 + linebytes, h)
  {
    if h == 0 then []
    else
      var rows := image[..Lines(linebytes, h - 1)];
      FilterImage(types, rows, linebytes, bytewidth, h - 1) + [types[h - 1]] +
      Filtered(types[h - 1], bytewidth, Above(rows, linebytes), image[Lines(linebytes, h - 1)..])
  }

  /** What unfilter makes of `h` stored lines. */
  function Unfiltered(scan: seq<Byte>, linebytes: nat, bytewidth: nat, h: nat): (r: seq<Byte>)
    requires 0 < bytewidth && 0 < linebytes && |scan| >= Lines(1 + linebytes, h)
    ensures |r| == Lines(linebytes, h)
  {
    if h == 0 then []
    else
      var rows := Unfiltered(scan, linebytes, bytewidth, h - 1);
      var at := Lines(1 + linebytes, h - 1);
      rows + Restored(scan[at], bytewidth, Above(rows, linebytes), scan[at + 1..at + 1 + linebytes], linebytes)
  }

  /** The stored line `y`, without its filter type. */
  function Scanline(scan: seq<Byte>, linebytes: nat, y: nat): (r: seq<Byte>)
    requires |scan| >= Lines(1 + linebytes, y + 1)
    ensures |r| == linebytes
  {
    var at := Lines(1 + linebytes, y);
    scan[at + 1..at + 1 + linebytes]
  }

  lemma UnfilteredStep(scan: seq<Byte>, linebytes: nat, bytewidth: nat, y: nat)
    requires 0 < bytewidth && 0 < linebytes && |scan| >= Lines(1 + linebytes, y + 1)
    ensures |scan| >= Lines(1 + linebytes, y) + 1 + linebytes
    ensures var rows := Unfiltered(scan, linebytes, bytewidth, y);
            Unfiltered(scan, linebytes, bytewidth, y + 1) ==
            rows + Restored(scan[Lines(1 + linebytes, y)], bytewidth, Above(rows, linebytes), Scanline(scan, linebytes, y), linebytes)
  {
    hide Restored;
  }

  lemma FilterStep(types: seq<Byte>, image: seq<Byte>, line: seq<Byte>, linebytes: nat, bytewidth: nat, y: nat)
    requires 0 < bytewidth && 0 < linebytes && y < |types| && |image| == Lines(linebytes, y) && |line| == linebytes
    ensures Lines(linebytes, y + 1) == Lines(linebytes, y) + linebytes
    ensures FilterImage(types, image + line, linebytes, bytewidth, y + 1) ==
            FilterImage(types, image, linebytes, bytewidth, y) + [types[y]] +
            Filtered(types[y], bytewidth, Above(image, linebytes), line)
  {
    hide Filtered, Above;
    assert (image + line)[..|image|] == image;
    assert (image + line)[|image|..] == line;
  }

  /** Later bytes do not matter to the lines before them. */
  lemma {:induction false} UnfilteredPrefix(scan: seq<Byte>, more: seq<Byte>, linebytes: nat, bytewidth: nat, h: nat)
    requires 0 < bytewidth && 0 < linebytes && |scan| >= Lines(1 + linebytes, h)
    ensures Unfiltered(scan + more, linebytes, bytewidth, h) == Unfiltered(scan, linebytes, bytewidth, h)
  {
    hide Unfiltered, Restored, Above;
    if h == 0 {
      return;
    }
    LinesStep(1 + linebytes, h);
    UnfilteredPrefix(scan, more, linebytes, bytewidth, h - 1);
    UnfilteredStep(scan, linebytes, bytewidth, h - 1);
    UnfilteredStep(scan + more, linebytes, bytewidth, h - 1);
    assert Scanline(scan + more, linebytes, h - 1) == Scanline(scan, linebytes, h - 1);
  }

  lemma ScanlineLast(before: seq<Byte>, filter: Byte, line: seq<Byte>, linebytes: nat, y: nat)
    requires |before| == Lines(1 + linebytes, y) && |line| == linebytes
    ensures Lines(1 + linebytes, y + 1) == |before| + 1 + linebytes
    ensures var scan := before + [filter] + line; scan[|before|] == filter && Scanline(scan, linebytes, y) == line
    ensures before + [filter] + line == before + ([filter] + line)
  {}

  /** Unfiltering restores every image, whatever filters were chosen for its lines. */
  lemma {:induction false} UnfilterFiltered(types: seq<Byte>, image: seq<Byte>, linebytes: nat, bytewidth: nat, h: nat)
    requires 0 < bytewidth && 0 < linebytes && h <= |types| && |image| == Lines(linebytes, h)
    ensures Unfiltered(FilterImage(types, image, linebytes, bytewidth, h), linebytes, bytewidth, h) == image
  {
    hide Restored, Filtered, Lines, FilterImage, Unfiltered, Above, Scanline;
    if h == 0 {
      return;
    }
    LinesStep(linebytes, h);
    var y, n := h - 1, Lines(linebytes, h - 1);
    var rows, line, filter := image[..n], image[n..], types[h - 1];
    assert image == rows + line;
    var before := FilterImage(types, rows, linebytes, bytewidth, y);
    var stored := Filtered(filter, bytewidth, Above(rows, linebytes), line);
    FilterStep(types, rows, line, linebytes, bytewidth, y);
    ScanlineLast(before, filter, stored, linebytes, y);
    UnfilterFiltered(types, rows, linebytes, bytewidth, y);
    UnfilteredPrefix(before, [filter] + stored, linebytes, bytewidth, y);
    UnfilteredStep(before + [filter] + stored, linebytes, bytewidth, y);
    RestoredFiltered(filter, bytewidth, Above(rows, linebytes), line, linebytes);
    assert line[..linebytes] == line;
  }

  /** The filter types of the stored lines. */
  function TypesOf(scan: seq<Byte>, linebytes: nat, h: nat): (r: seq<Byte>)
    requires |scan| >= Lines(1 + linebytes, h)
    ensures |r| == h
  {
    if h == 0 then [] else TypesOf(scan, linebytes, h - 1) + [scan[Lines(1 + linebytes, h - 1)]]
  }

  lemma {:induction false} FilterPrefix(types: seq<Byte>, more: seq<Byte>, image: seq<Byte>, linebytes: nat, bytewidth: nat, h: nat)
    requires 0 < bytewidth && 0 < linebytes && h <= |types| && |image| == Lines(linebytes, h)
    ensures FilterImage(types + more, image, linebytes, bytewidth, h) == FilterImage(types, image, linebytes, bytewidth, h)
  {
    hide Filtered, FilterImage, Above, Lines;
    if h == 0 {
      return;
    }
    LinesStep(linebytes, h);
    var n := Lines(linebytes, h - 1);
    var rows, line := image[..n], image[n..];
    assert image == rows + line;
    FilterPrefix(types, more, rows, linebytes, bytewidth, h - 1);
    FilterStep(types, rows, line, linebytes, bytewidth, h - 1);
    FilterStep(types + more, rows, line, linebytes, bytewidth, h - 1);
  }

  /** Every stored image is the filtered form of what it unfilters to. */
  lemma {:induction false} FilterUnfiltered(scan: seq<Byte>, linebytes: nat, bytewidth: nat, h: nat)
    requires 0 < bytewidth && 0 < linebytes && |scan| >= Lines(1 + linebytes, h)
    ensures FilterImage(TypesOf(scan, linebytes, h), Unfiltered(scan, linebytes, bytewidth, h), linebytes, bytewidth, h)
            == scan[..Lines(1 + linebytes, h)]
  {
    hide Restored, Filtered, FilterImage, Unfiltered, Above, Lines;
    if h == 0 {
      return;
    }
    LinesStep(1 + linebytes, h);
    var y, at := h - 1, Lines(1 + linebytes, h - 1);
    var types, rows, filter := TypesOf(scan, linebytes, y), Unfiltered(scan, linebytes, bytewidth, y), scan[at];
    var stored := Scanline(scan, linebytes, y);
    var line := Restored(filter, bytewidth, Above(rows, linebytes), stored, linebytes);
    UnfilteredStep(scan, linebytes, bytewidth, y);
    FilterUnfiltered(scan, linebytes, bytewidth, y);
    FilterPrefix(types, [filter], rows, linebytes, bytewidth, y);
    FilterStep(types + [filter], rows, line, linebytes, bytewidth, y);
    FilteredRestored(filter, bytewidth, Above(rows, linebytes), stored);
    assert scan[..at + 1 + linebytes] == scan[..at] + [filter] + stored;
  }

  // ----- one scanline -----

  /** The line above as the code sees it: `precon` is the null pointer or the place of a line in `out`. */
  datatype Pointer = Null | At(index: nat)

  ghost function LineAbove(out: array<Byte>, precon: Pointer, length: nat): (r: seq<Byte>)
    requires precon.At? ==> precon.index + length <= out.Length
    reads out
    ensures |r| == length
  {
    if precon.Null? then Zeros(length) else out[precon.index..precon.index + length]
  }

  /**
   * Where unfilter_scanline may be used: when `out` and `data` are the same array the line may be written
   * over the scanline or below it, and the line above must lie below both.
   */
  predicate Disjoint(out: array<Byte>, recon: nat, data: array<Byte>, scanline: nat, precon: Pointer, bytewidth: nat, length: nat) {
    && 0 < bytewidth <= length && recon + length <= out.Length && scanline + length <= data.Length
    && (out == data ==> recon <= scanline)
    && (precon.At? ==> precon.index + length <= recon)
  }

  /** The first `i` bytes of the line have been restored, and nothing else in `out` has changed. */
  ghost predicate Partly(out: array<Byte>, recon: nat, was: seq<Byte>, filter: Byte, bytewidth: nat,
                         prev: seq<Byte>, scan: seq<Byte>, i: nat)
    reads out
  {
    && 0 < bytewidth && |prev| == |scan| && i <= |scan| && recon + |scan| <= out.Length && |was| == out.Length
    && out[recon..recon + i] == Restored(filter, bytewidth, prev, scan, i)
    && (forall k | 0 <= k < out.Length && !(recon <= k < recon + i) :: out[k] == was[k])
  }

  lemma Begin(out: array<Byte>, recon: nat, was: seq<Byte>, filter: Byte, bytewidth: nat, prev: seq<Byte>, scan: seq<Byte>)
    requires 0 < bytewidth && |prev| == |scan| && recon + |scan| <= out.Length && was == out[..]
    ensures Partly(out, recon, was, filter, bytewidth, prev, scan, 0)
  {}

  /** A byte of the line is written. */
  method Put(out: array<Byte>, recon: nat, i: nat, v: nat, ghost was: seq<Byte>, ghost filter: Byte, ghost bytewidth: nat,
             ghost prev: seq<Byte>, ghost scan: seq<Byte>)
    requires Partly(out, recon, was, filter, bytewidth, prev, scan, i) && i < |scan|
    requires var line := Restored(filter, bytewidth, prev, scan, i);
             v == scan[i] as nat + Predict(filter, Left(line, i, bytewidth), prev[i], Left(prev, i, bytewidth))
    modifies out
    ensures Partly(out, recon, was, filter, bytewidth, prev, scan, i + 1)
  {
    hide Predict;
    out[recon + i] := v % 256;
    assert out[recon..recon + i + 1] == old(out[recon..recon + i]) + [v % 256];
  }

  /** What the code reads while it restores byte `i`: in place or not, the scanline and the line above as they were. */
  lemma Sees(out: array<Byte>, recon: nat, data: array<Byte>, scanline: nat, precon: Pointer, bytewidth: nat, length: nat,
             was: seq<Byte>, input: seq<Byte>, filter: Byte, prev: seq<Byte>, scan: seq<Byte>, i: nat)
    requires Disjoint(out, recon, data, scanline, precon, bytewidth, length) && i < length
    requires |was| == out.Length && |input| == data.Length
    requires prev == (if precon.Null? then Zeros(length) else was[precon.index..precon.index + length])
    requires scan == input[scanline..scanline + length] && if out == data then input == was else input == data[..]
    requires Partly(out, recon, was, filter, bytewidth, prev, scan, i)
    ensures data[scanline + i] == scan[i]
    ensures Left(Restored(filter, bytewidth, prev, scan, i), i, bytewidth) ==
            if i < bytewidth then 0 else out[recon + i - bytewidth]
    ensures precon.At? ==> out[precon.index + i] == prev[i]
    ensures precon.At? ==> Left(prev, i, bytewidth) == if i < bytewidth then 0 else out[precon.index + i - bytewidth]
    ensures precon.Null? ==> prev[i] == Left(prev, i, bytewidth) == 0
  {
    hide Restored;
  }

  /** Filter type 0. */
  method CopyLine(out: array<Byte>, recon: nat, data: array<Byte>, scanline: nat, precon: Pointer, bytewidth: nat, length: nat)
    requires Disjoint(out, recon, data, scanline, precon, bytewidth, length)
    modifies out
    ensures Partly(out, recon, old(out[..]), 0, bytewidth,
                   old(LineAbove(out, precon, length)), old(data[scanline..scanline + length]), length)
  {
    hide Restored, Partly, PaethPredictor;
    ghost var was, input, prev, scan := out[..], data[..], LineAbove(out, precon, length), data[scanline..scanline + length];
    Begin(out, recon, was, 0, bytewidth, prev, scan);
    for i := 0 to length
      invariant Partly(out, recon, was, 0, bytewidth, prev, scan, i)
    {
      Sees(out, recon, data, scanline, precon, bytewidth, length, was, input, 0, prev, scan, i);
      var v: nat := data[scanline + i];
      Put(out, recon, i, v, was, 0, bytewidth, prev, scan);
    }
  }

  /** Filter type 1. */
  method SubLine(out: array<Byte>, recon: nat, data: array<Byte>, scanline: nat, precon: Pointer, bytewidth: nat, length: nat)
    requires Disjoint(out, recon, data, scanline, precon, bytewidth, length)
    modifies out
    ensures Partly(out, recon, old(out[..]), 1, bytewidth,
                   old(LineAbove(out, precon, length)), old(data[scanline..scanline + length]), length)
  {
    hide Restored, Partly, PaethPredictor;
    ghost var was, input, prev, scan := out[..], data[..], LineAbove(out, precon, length), data[scanline..scanline + length];
    Begin(out, recon, was, 1, bytewidth, prev, scan);
    for i := 0 to bytewidth
      invariant Partly(out, recon, was, 1, bytewidth, prev, scan, i)
    {
      Sees(out, recon, data, scanline, precon, bytewidth, length, was, input, 1, prev, scan, i);
      var v: nat := data[scanline + i];
      Put(out, recon, i, v, was, 1, bytewidth, prev, scan);
    }
    for i := bytewidth to length
      invariant Partly(out, recon, was, 1, bytewidth, prev, scan, i)
    {
      Sees(out, recon, data, scanline, precon, bytewidth, length, was, input, 1, prev, scan, i);
      var v: nat := data[scanline + i] as nat + out[recon + i - bytewidth];
      Put(out, recon, i, v, was, 1, bytewidth, prev, scan);
    }
  }

  /** Filter type 2. */
  method UpLine(out: array<Byte>, recon: nat, data: array<Byte>, scanline: nat, precon: Pointer, bytewidth: nat, length: nat)
    requires Disjoint(out, recon, data, scanline, precon, bytewidth, length)
    modifies out
    ensures Partly(out, recon, old(out[..]), 2, bytewidth,
                   old(LineAbove(out, precon, length)), old(data[scanline..scanline + length]), length)
  {
    hide Restored, Partly, PaethPredictor;
    ghost var was, input, prev, scan := out[..], data[..], LineAbove(out, precon, length), data[scanline..scanline + length];
    Begin(out, recon, was, 2, bytewidth, prev, scan);
    if precon.At? {
      for i := 0 to length
        invariant Partly(out, recon, was, 2, bytewidth, prev, scan, i)
      {
        Sees(out, recon, data, scanline, precon, bytewidth, length, was, input, 2, prev, scan, i);
        var v: nat := data[scanline + i] as nat + out[precon.index + i];
        Put(out, recon, i, v, was, 2, bytewidth, prev, scan);
      }
    } else {
      for i := 0 to length
        invariant Partly(out, recon, was, 2, bytewidth, prev, scan, i)
      {
        Sees(out, recon, data, scanline, precon, bytewidth, length, was, input, 2, prev, scan, i);
        var v: nat := data[scanline + i];
        Put(out, recon, i, v, was, 2, bytewidth, prev, scan);
      }
    }
  }

  /** Filter type 3. */
  method AverageLine(out: array<Byte>, recon: nat, data: array<Byte>, scanline: nat, precon: Pointer, bytewidth: nat, length: nat)
    requires Disjoint(out, recon, data, scanline, precon, bytewidth, length)
    modifies out
    ensures Partly(out, recon, old(out[..]), 3, bytewidth,
                   old(LineAbove(out, precon, length)), old(data[scanline..scanline + length]), length)
  {
    hide Restored, Partly, PaethPredictor;
    ghost var was, input, prev, scan := out[..], data[..], LineAbove(out, precon, length), data[scanline..scanline + length];
    Begin(out, recon, was, 3, bytewidth, prev, scan);
    if precon.At? {
      for i := 0 to bytewidth
        invariant Partly(out, recon, was, 3, bytewidth, prev, scan, i)
      {
        Sees(out, recon, data, scanline, precon, bytewidth, length, was, input, 3, prev, scan, i);
        var v: nat := data[scanline + i] as nat + out[precon.index + i] / 2;
        Put(out, recon, i, v, was, 3, bytewidth, prev, scan);
      }
      for i := bytewidth to length
        invariant Partly(out, recon, was, 3, bytewidth, prev, scan, i)
      {
        Sees(out, recon, data, scanline, precon, bytewidth, length, was, input, 3, prev, scan, i);
        var v: nat := data[scanline + i] as nat + (out[recon + i - bytewidth] as nat + out[precon.index + i]) / 2;
        Put(out, recon, i, v, was, 3, bytewidth, prev, scan);
      }
    } else {
      for i := 0 to bytewidth
        invariant Partly(out, recon, was, 3, bytewidth, prev, scan, i)
      {
        Sees(out, recon, data, scanline, precon, bytewidth, length, was, input, 3, prev, scan, i);
        var v: nat := data[scanline + i];
        Put(out, recon, i, v, was, 3, bytewidth, prev, scan);
      }
      for i := bytewidth to length
        invariant Partly(out, recon, was, 3, bytewidth, prev, scan, i)
      {
        Sees(out, recon, data, scanline, precon, bytewidth, length, was, input, 3, prev, scan, i);
        var v: nat := data[scanline + i] as nat + out[recon + i - bytewidth] / 2;
        Put(out, recon, i, v, was, 3, bytewidth, prev, scan);
      }
    }
  }

  /** Filter type 4. */
  method PaethLine(out: array<Byte>, recon: nat, data: array<Byte>, scanline: nat, precon: Pointer, bytewidth: nat, length: nat)
    requires Disjoint(out, recon, data, scanline, precon, bytewidth, length)
    modifies out
    ensures Partly(out, recon, old(out[..]), 4, bytewidth,
                   old(LineAbove(out, precon, length)), old(data[scanline..scanline + length]), length)
  {
    hide Restored, Partly, PaethPredictor;
    ghost var was, input, prev, scan := out[..], data[..], LineAbove(out, precon, length), data[scanline..scanline + length];
    Begin(out, recon, was, 4, bytewidth, prev, scan);
    if precon.At? {
      for i := 0 to bytewidth
        invariant Partly(out, recon, was, 4, bytewidth, prev, scan, i)
      {
        Sees(out, recon, data, scanline, precon, bytewidth, length, was, input, 4, prev, scan, i);
        var v: nat := data[scanline + i] as nat + PaethPredictor(0, out[precon.index + i], 0);
        Put(out, recon, i, v, was, 4, bytewidth, prev, scan);
      }
      for i := bytewidth to length
        invariant Partly(out, recon, was, 4, bytewidth, prev, scan, i)
      {
        Sees(out, recon, data, scanline, precon, bytewidth, length, was, input, 4, prev, scan, i);
        var v: nat := data[scanline + i] as nat +
                      PaethPredictor(out[recon + i - bytewidth], out[precon.index + i], out[precon.index + i - bytewidth]);
        Put(out, recon, i, v, was, 4, bytewidth, prev, scan);
      }
    } else {
      for i := 0 to bytewidth
        invariant Partly(out, recon, was, 4, bytewidth, prev, scan, i)
      {
        Sees(out, recon, data, scanline, precon, bytewidth, length, was, input, 4, prev, scan, i);
        var v: nat := data[scanline + i];
        Put(out, recon, i, v, was, 4, bytewidth, prev, scan);
      }
      for i := bytewidth to length
        invariant Partly(out, recon, was, 4, bytewidth, prev, scan, i)
      {
        Sees(out, recon, data, scanline, precon, bytewidth, length, was, input, 4, prev, scan, i);
        var v: nat := data[scanline + i] as nat + PaethPredictor(out[recon + i - bytewidth], 0, 0);
        Put(out, recon, i, v, was, 4, bytewidth, prev, scan);
      }
    }
  }

  /** unfilter_scanline. */
  method UnfilterScanline(out: array<Byte>, recon: nat, data: array<Byte>, scanline: nat, precon: Pointer,
                          bytewidth: nat, filter: Byte, length: nat) returns (ok: bool)
    requires Disjoint(out, recon, data, scanline, precon, bytewidth, length)
    modifies out
    ensures ok == (filter <= 4)
    ensures ok ==> out[recon..recon + length] ==
                   old(Restored(filter, bytewidth, LineAbove(out, precon, length), data[scanline..scanline + length], length))
    ensures forall k | 0 <= k < out.Length && !(recon <= k < recon + length) :: out[k] == old(out[k])
    ensures !ok ==> out[..] == old(out[..])
  {
    hide Restored;
    ok := true;
    match filter {
      case 0 => CopyLine(out, recon, data, scanline, precon, bytewidth, length);
      case 1 => SubLine(out, recon, data, scanline, precon, bytewidth, length);
      case 2 => UpLine(out, recon, data, scanline, precon, bytewidth, length);
      case 3 => AverageLine(out, recon, data, scanline, precon, bytewidth, length);
      case 4 => PaethLine(out, recon, data, scanline, precon, bytewidth, length);
      case _ => ok := false;
    }
  }

  // ----- whole images -----

  /** Every stored line has one of the five filter types. */
  predicate GoodTypes(scan: seq<Byte>, linebytes: nat, h: nat)
    requires |scan| >= Lines(1 + linebytes, h)
  {
    h == 0 || (GoodTypes(scan, linebytes, h - 1) && scan[Lines(1 + linebytes, h - 1)] <= 4)
  }

  /** Where line `y` is found and where it goes: never above its own scanline. */
  lemma LineRoom(linebytes: nat, y: nat, h: nat)
    requires y < h
    ensures Lines(linebytes, y + 1) == Lines(linebytes, y) + linebytes && Lines(linebytes, y + 1) <= Lines(linebytes, h)
    ensures Lines(linebytes, y) + y == Lines(1 + linebytes, y)
    ensures Lines(1 + linebytes, y + 1) == Lines(1 + linebytes, y) + 1 + linebytes && Lines(1 + linebytes, y + 1) <= Lines(1 + linebytes, h)
  {
    LinesIs(linebytes, y);
    LinesIs(linebytes, y + 1);
    LinesIs(linebytes, h);
    LinesIs(1 + linebytes, y);
    LinesIs(1 + linebytes, y + 1);
    LinesIs(1 + linebytes, h);
    MulLe(linebytes, y + 1, h);
    MulLe(1 + linebytes, y + 1, h);
  }

  lemma {:induction false} GoodMono(scan: seq<Byte>, linebytes: nat, y: nat, h: nat)
    requires y <= h && |scan| >= Lines(1 + linebytes, h)
    ensures |scan| >= Lines(1 + linebytes, y)
    ensures GoodTypes(scan, linebytes, h) ==> GoodTypes(scan, linebytes, y)
  {
    if y < h {
      GoodMono(scan, linebytes, y, h - 1);
    }
  }

  lemma GoodNext(scan: seq<Byte>, linebytes: nat, y: nat, h: nat)
    requires y < h && |scan| >= Lines(1 + linebytes, h)
    ensures |scan| >= Lines(1 + linebytes, y + 1) == Lines(1 + linebytes, y) + 1 + linebytes
    ensures (scan[Lines(1 + linebytes, y)] <= 4 && GoodTypes(scan, linebytes, y)) <==> GoodTypes(scan, linebytes, y + 1)
    ensures GoodTypes(scan, linebytes, h) ==> GoodTypes(scan, linebytes, y + 1)
  {
    LineRoom(linebytes, y, h);
    GoodMono(scan, linebytes, y + 1, h);
  }

  /** In place or not, the stored line `y` has not been overwritten when its turn comes. */
  lemma InputKept(out: array<Byte>, data: array<Byte>, was: seq<Byte>, scan: seq<Byte>, linebytes: nat, y: nat)
    requires |was| == out.Length && |scan| == data.Length && if out == data then was == scan else data[..] == scan
    requires Lines(linebytes, y) <= Lines(1 + linebytes, y) && Lines(1 + linebytes, y) + 1 + linebytes == Lines(1 + linebytes, y + 1) <= data.Length
    requires forall k | Lines(linebytes, y) <= k < out.Length :: out[k] == was[k]
    ensures var at := Lines(1 + linebytes, y);
            data[at] == scan[at] && data[at + 1..at + 1 + linebytes] == Scanline(scan, linebytes, y)
  {}

  /** The place of line `y`. */
  function Offset(n: nat, y: nat): (r: nat)
    ensures r == Lines(n, y)
  {
    LinesIs(n, y);
    n * y
  }

  /** The first `y` lines are restored, and nothing past them has been written. */
  ghost predicate Through(out: array<Byte>, was: seq<Byte>, scan: seq<Byte>, linebytes: nat, bytewidth: nat, y: nat)
    reads out
  {
    && 0 < bytewidth && 0 < linebytes
    && Lines(linebytes, y) <= out.Length == |was| && Lines(1 + linebytes, y) <= |scan|
    && out[..Lines(linebytes, y)] == Unfiltered(scan, linebytes, bytewidth, y)
    && (forall k | Lines(linebytes, y) <= k < out.Length :: out[k] == was[k])
  }

  /** One round of the loop of unfilter. */
  method UnfilterLine(out: array<Byte>, data: array<Byte>, linebytes: nat, bytewidth: nat, y: nat, prevline: Pointer,
                      ghost was: seq<Byte>, ghost scan: seq<Byte>) returns (ok: bool)
    requires Through(out, was, scan, linebytes, bytewidth, y) && bytewidth <= linebytes
    requires |scan| == data.Length && if out == data then was == scan else data[..] == scan
    requires Lines(linebytes, y + 1) <= out.Length && Lines(1 + linebytes, y + 1) <= data.Length
    requires prevline == if y == 0 then Null else At(Lines(linebytes, y) - linebytes)
    modifies out
    ensures ok == (scan[Lines(1 + linebytes, y)] <= 4)
    ensures ok ==> Through(out, was, scan, linebytes, bytewidth, y + 1)
    ensures !ok ==> out[..] == old(out[..])
  {
    hide Lines, Restored, Unfiltered, Above, Scanline, LineAbove, Offset;
    LineRoom(linebytes, y, y + 1);
    InputKept(out, data, was, scan, linebytes, y);
    var outindex: nat := Offset(linebytes, y);
    var inindex: nat := Offset(1 + linebytes, y);
    var filterType := data[inindex];
    ghost var rows := out[..outindex];
    AboveIs(out, outindex, prevline, linebytes);
    ok := UnfilterScanline(out, outindex, data, inindex + 1, prevline, bytewidth, filterType, linebytes);
    UnfilteredStep(scan, linebytes, bytewidth, y);
    assert out[..outindex] == rows;
    assert ok ==> out[..outindex + linebytes] == out[..outindex] + out[outindex..outindex + linebytes];
  }

  /** unfilter, from `data` to `out`, which may be the same array. */
  method Unfilter(out: array<Byte>, data: array<Byte>, w: nat, h: nat, bpp: nat) returns (ok: bool)
    requires w > 0 && bpp > 0
    requires var linebytes := (w * bpp + 7) / 8;
             Lines(linebytes, h) <= out.Length && Lines(1 + linebytes, h) <= data.Length
    modifies out
    ensures var linebytes := (w * bpp + 7) / 8;
            && ok == old(GoodTypes(data[..], linebytes, h))
            && (ok ==> out[..Lines(linebytes, h)] == old(Unfiltered(data[..], linebytes, (bpp + 7) / 8, h)))
    ensures forall k | Lines((w * bpp + 7) / 8, h) <= k < out.Length :: out[k] == old(out[k])
  {
    hide GoodTypes, Lines, Unfiltered, Offset;
    var prevline := Null;
    var bytewidth: nat := (bpp + 7) / 8;
    var linebytes: nat := (w * bpp + 7) / 8;
    PixelFits(w, bpp);
    ghost var was, scan := out[..], data[..];
    NoTypes(scan, linebytes, bytewidth);
    ok := true;
    for y := 0 to h
      invariant ok && Through(out, was, scan, linebytes, bytewidth, y) && GoodTypes(scan, linebytes, y)
      invariant out == data || data[..] == scan
      invariant prevline == if y == 0 then Null else At(Lines(linebytes, y) - linebytes)
    {
      LineRoom(linebytes, y, h);
      GoodNext(scan, linebytes, y, h);
      ok := UnfilterLine(out, data, linebytes, bytewidth, y, prevline, was, scan);
      if !ok {
        return;
      }
      prevline := At(Offset(linebytes, y));
    }
  }

  lemma AboveIs(out: array<Byte>, outindex: nat, prevline: Pointer, linebytes: nat)
    requires outindex <= out.Length && (outindex == 0 || outindex >= linebytes > 0)
    requires prevline == if outindex == 0 then Null else At(outindex - linebytes)
    ensures LineAbove(out, prevline, linebytes) == Above(out[..outindex], linebytes)
  {}

  lemma NoTypes(scan: seq<Byte>, linebytes: nat, bytewidth: nat)
    requires 0 < bytewidth && 0 < linebytes
    ensures GoodTypes(scan, linebytes, 0) && Unfiltered(scan, linebytes, bytewidth, 0) == []
  {}

  lemma PixelFits(w: nat, bpp: nat)
    requires w > 0 && bpp > 0
    ensures 0 < (bpp + 7) / 8 <= (w * bpp + 7) / 8
  {
    MulLe(bpp, 1, w);
  }

  /** Running unfilter in place gives what it gives between separate buffers. */
  method UnfilterTwice(out: array<Byte>, data: array<Byte>, w: nat, h: nat, bpp: nat) returns (apart: bool, inPlace: bool)
    requires w > 0 && bpp > 0 && out != data
    requires var linebytes := (w * bpp + 7) / 8;
             Lines(linebytes, h) <= out.Length && Lines(linebytes, h) <= Lines(1 + linebytes, h) <= data.Length
    modifies out, data
    ensures var n := Lines((w * bpp + 7) / 8, h); apart == inPlace && (apart ==> out[..n] == data[..n])
  {
    hide GoodTypes, Lines, Unfiltered;
    apart := Unfilter(out, data, w, h, bpp);
    inPlace := Unfilter(data, data, w, h, bpp);
  }

  // ----- padding bits -----

  function Weight(k: nat): (r: nat)
    requires k < 8
    ensures r > 0
  {
    [128, 64, 32, 16, 8, 4, 2, 1][k]
  }

  /** Bit `k` of a byte, the most significant first, as PNG packs small pixels. */
  function BitOf(b: Byte, k: nat): Bit
    requires k < 8
  {
    b / Weight(k) % 2
  }

  /** The two ways of setting a bit: and-ing it out, or or-ing it in. */
  function WithBit(b: Byte, k: nat, v: Bit): (r: Byte)
    requires k < 8
    ensures BitOf(r, k) == v
    ensures forall j | 0 <= j < 8 && j != k :: BitOf(r, j) == BitOf(b, j)
  {
    if v == 0 then (if BitOf(b, k) == 1 then BitCleared(b, k); b - Weight(k) else b)
    else (if BitOf(b, k) == 0 then BitAdded(b, k); b + Weight(k) else b)
  }

  lemma Weights(j: nat, k: nat)
    requires j < k < 8
    ensures Weight(j) == (2 * Weight(k)) * (Weight(j) / (2 * Weight(k))) && Weight(j) / (2 * Weight(k)) > 0
  {}

  /** Adding the weight of a clear bit below 256 sets it, and touches no other. */
  lemma BitAdded(b: Byte, k: nat)
    requires k < 8 && BitOf(b, k) == 0
    ensures b + Weight(k) < 256 && BitOf(b + Weight(k), k) == 1
    ensures forall j | 0 <= j < 8 && j != k :: BitOf(b + Weight(k), j) == BitOf(b, j)
  {
    hide Weight;
    var d := Weight(k);
    AddedFits(b, k);
    DivModUnique(b + d, d, b / d + 1, b % d);
    forall j | 0 <= j < 8 && j != k ensures BitOf(b + d, j) == BitOf(b, j) {
      OtherBit(b, k, j);
    }
  }

  lemma OtherBit(b: Byte, k: nat, j: nat)
    requires k < 8 && j < 8 && j != k && BitOf(b, k) == 0 && b + Weight(k) < 256
    ensures BitOf(b + Weight(k), j) == BitOf(b, j)
  {
    hide Weight;
    var d := Weight(k);
    if j < k {
      Weights(j, k);
      var c := Weight(j) / (2 * d);
      HigherBits(b, d);
      DivDiv(b, 2 * d, c);
      DivDiv(b + d, 2 * d, c);
    } else {
      Weights(k, j);
      LowerBits(b, Weight(j), d / (2 * Weight(j)));
    }
  }

  lemma AddedFits(b: Byte, k: nat)
    requires k < 8 && BitOf(b, k) == 0
    ensures b + Weight(k) < 256
  {
    var d := Weight(k);
    var c := 128 / d;
    assert 256 == d * (2 * c);
    var q := b / d / 2;
    assert b == d * (2 * q) + b % d;
    if q >= c {
      MulLe(d, 2 * c, 2 * q);
      assert false;
    }
    MulLe(d, 2 * q + 2, 2 * c);
  }

  lemma HigherBits(b: nat, d: nat)
    requires d > 0 && b / d % 2 == 0
    ensures (b + d) / (2 * d) == b / (2 * d)
  {
    var q := b / d / 2;
    assert b / d == 2 * q;
    DivModUnique(b, 2 * d, q, b % d);
    DivModUnique(b + d, 2 * d, q, d + b % d);
  }

  lemma LowerBits(b: nat, e: nat, c: nat)
    requires e > 0
    ensures (b + 2 * e * c) / e % 2 == b / e % 2
  {
    DivModUnique(b + 2 * e * c, e, b / e + 2 * c, b % e);
  }

  lemma BitCleared(b: Byte, k: nat)
    requires k < 8 && BitOf(b, k) == 1
    ensures b >= Weight(k) && BitOf(b - Weight(k), k) == 0
    ensures forall j | 0 <= j < 8 && j != k :: BitOf(b - Weight(k), j) == BitOf(b, j)
  {
    var d := Weight(k);
    assert b >= d;
    DivModUnique(b - d, d, b / d - 1, b % d);
    BitAdded(b - d, k);
  }

  /** The bits of a run of bytes, in that order. */
  function ImageBits(s: seq<Byte>): (r: seq<Bit>)
    ensures |r| == 8 * |s|
  {
    seq<Bit>(8 * |s|, p requires 0 <= p < 8 * |s| => BitOf(s[p / 8], p % 8))
  }

  /** The first `olb` bits of each of `h` lines of `ilb` bits. */
  function Trimmed(bits: seq<Bit>, olb: nat, ilb: nat, h: nat): (r: seq<Bit>)
    requires olb <= ilb && |bits| >= Lines(ilb, h)
    ensures |r| == Lines(olb, h)
  {
    if h == 0 then []
    else Trimmed(bits, olb, ilb, h - 1) + bits[Lines(ilb, h - 1)..Lines(ilb, h - 1) + olb]
  }

  /** Setting one bit of a buffer. */
  lemma ImageBitsSet(s: seq<Byte>, p: nat, v: Bit)
    requires p < 8 * |s|
    ensures ImageBits(s[p / 8 := WithBit(s[p / 8], p % 8, v)]) == ImageBits(s)[p := v]
  {
    hide WithBit, BitOf;
  }

  /** One round of the inner loop of remove_padding_bits. */
  method MoveBit(out: array<Byte>, data: array<Byte>, obp: nat, ibp: nat)
    requires obp < 8 * out.Length && ibp < 8 * data.Length
    modifies out
    ensures ImageBits(out[..]) == old(ImageBits(out[..])[obp := ImageBits(data[..])[ibp]])
  {
    hide WithBit, BitOf;
    ghost var s := out[..];
    var bit := BitOf(data[ibp / 8], ibp % 8);
    ImageBitsSet(s, obp, bit);
    out[obp / 8] := WithBit(out[obp / 8], obp % 8, bit);
    assert out[..] == s[obp / 8 := WithBit(s[obp / 8], obp % 8, bit)];
  }

  /** `x` bits of line `y` have been moved; in place, the bits still to be read are as they were. */
  ghost predicate Packing(out: array<Byte>, data: array<Byte>, was: seq<Bit>, bits: seq<Bit>, olb: nat, ilb: nat, y: nat, x: nat)
    reads out, data
  {
    && x <= olb <= ilb && |was| == 8 * out.Length && |bits| == 8 * data.Length
    && Lines(olb, y) + x <= Lines(ilb, y) + x <= |bits| && Lines(olb, y) + x <= |was|
    && ImageBits(out[..]) == Trimmed(bits, olb, ilb, y) + bits[Lines(ilb, y)..Lines(ilb, y) + x] + was[Lines(olb, y) + x..]
    && (if out == data then was == bits else ImageBits(data[..]) == bits)
  }

  lemma PackingReads(out: array<Byte>, data: array<Byte>, was: seq<Bit>, bits: seq<Bit>, olb: nat, ilb: nat, y: nat, x: nat)
    requires Packing(out, data, was, bits, olb, ilb, y, x) && Lines(ilb, y) + x < |bits|
    ensures ImageBits(data[..])[Lines(ilb, y) + x] == bits[Lines(ilb, y) + x]
  {
    hide Trimmed, ImageBits, Lines;
  }

  lemma PackingNext(out: seq<Bit>, out': seq<Bit>, t: seq<Bit>, bits: seq<Bit>, was: seq<Bit>, o: nat, i: nat, x: nat)
    requires |t| == o && i + x < |bits| && o + x < |was|
    requires out == t + bits[i..i + x] + was[o + x..] && out' == out[o + x := bits[i + x]]
    ensures out' == t + bits[i..i + x + 1] + was[o + x + 1..]
  {
    assert bits[i..i + x + 1] == bits[i..i + x] + [bits[i + x]];
    assert was[o + x..] == [was[o + x]] + was[o + x + 1..];
  }

  lemma PackingLine(out: array<Byte>, data: array<Byte>, was: seq<Bit>, bits: seq<Bit>, olb: nat, ilb: nat, y: nat)
    requires Packing(out, data, was, bits, olb, ilb, y, olb) && Lines(ilb, y + 1) <= |bits|
    ensures Packing(out, data, was, bits, olb, ilb, y + 1, 0)
  {
    hide ImageBits;
    LinesStep(olb, y + 1);
    LinesStep(ilb, y + 1);
  }

  method PackBit(out: array<Byte>, data: array<Byte>, ghost was: seq<Bit>, ghost bits: seq<Bit>, ghost olb: nat, ghost ilb: nat,
                 ghost y: nat, ghost x: nat, obp: nat, ibp: nat)
    requires Packing(out, data, was, bits, olb, ilb, y, x) && x < olb
    requires obp == Lines(olb, y) + x < |was| && ibp == Lines(ilb, y) + x < |bits|
    modifies out
    ensures Packing(out, data, was, bits, olb, ilb, y, x + 1)
  {
    hide Trimmed, ImageBits, Lines;
    ghost var before := ImageBits(out[..]);
    PackingReads(out, data, was, bits, olb, ilb, y, x);
    MoveBit(out, data, obp, ibp);
    PackingNext(before, ImageBits(out[..]), Trimmed(bits, olb, ilb, y), bits, was, Lines(olb, y), Lines(ilb, y), x);
  }

  lemma {:induction false} LinesLe(m: nat, n: nat, y: nat, h: nat)
    requires m <= n && y <= h
    ensures Lines(m, y) <= Lines(n, y) <= Lines(n, h)
  {
    if y < h {
      LinesLe(m, n, y, h - 1);
    } else if y > 0 {
      LinesLe(m, n, y - 1, h - 1);
    }
  }

  /** remove_padding_bits: the padding at the end of each line is squeezed out, in place if so asked. */
  method RemovePaddingBits(out: array<Byte>, data: array<Byte>, olinebits: nat, ilinebits: nat, h: nat)
    requires olinebits <= ilinebits && Lines(olinebits, h) <= 8 * out.Length && Lines(ilinebits, h) <= 8 * data.Length
    modifies out
    ensures ImageBits(out[..]) ==
            old(Trimmed(ImageBits(data[..]), olinebits, ilinebits, h) + ImageBits(out[..])[Lines(olinebits, h)..])
  {
    hide Trimmed, ImageBits, Lines, Packing;
    ghost var was, bits := ImageBits(out[..]), ImageBits(data[..]);
    var diff := ilinebits - olinebits;
    var obp, ibp: nat := 0, 0;
    PackingStart(out, data, was, bits, olinebits, ilinebits);
    for y := 0 to h
      invariant obp == Lines(olinebits, y) && ibp == Lines(ilinebits, y)
      invariant Packing(out, data, was, bits, olinebits, ilinebits, y, 0)
    {
      LinesStep(olinebits, y + 1);
      LinesStep(ilinebits, y + 1);
      LinesLe(olinebits, olinebits, y + 1, h);
      LinesLe(ilinebits, ilinebits, y + 1, h);
      for x := 0 to olinebits
        invariant obp == Lines(olinebits, y) + x && ibp == Lines(ilinebits, y) + x
        invariant Packing(out, data, was, bits, olinebits, ilinebits, y, x)
      {
        PackBit(out, data, was, bits, olinebits, ilinebits, y, x, obp, ibp);
        ibp := ibp + 1;
        obp := obp + 1;
      }
      PackingLine(out, data, was, bits, olinebits, ilinebits, y);
      ibp := ibp + diff;
    }
    PackingEnd(out, data, was, bits, olinebits, ilinebits, h);
  }

  lemma PackingStart(out: array<Byte>, data: array<Byte>, was: seq<Bit>, bits: seq<Bit>, olb: nat, ilb: nat)
    requires olb <= ilb && was == ImageBits(out[..]) && bits == ImageBits(data[..])
    ensures Packing(out, data, was, bits, olb, ilb, 0, 0)
  {
    hide ImageBits;
  }

  lemma PackingEnd(out: array<Byte>, data: array<Byte>, was: seq<Bit>, bits: seq<Bit>, olb: nat, ilb: nat, h: nat)
    requires Packing(out, data, was, bits, olb, ilb, h, 0)
    ensures ImageBits(out[..]) == Trimmed(bits, olb, ilb, h) + was[Lines(olb, h)..]
  {
    hide ImageBits, Trimmed, Lines;
  }

  // ----- post_process_scanlines -----

  /** The pixels of an image, packed without padding, from its stored lines. */
  function PixelBits(scan: seq<Byte>, w: nat, h: nat, bpp: nat): (r: seq<Bit>)
    requires w > 0 && bpp > 0 && |scan| >= Lines(1 + (w * bpp + 7) / 8, h)
    ensures |r| == Lines(w * bpp, h)
  {
    var linebytes := (w * bpp + 7) / 8;
    BitLines(linebytes, h);
    PixelFits(w, bpp);
    Trimmed(ImageBits(Unfiltered(scan, linebytes, (bpp + 7) / 8, h)), w * bpp, 8 * linebytes, h)
  }

  lemma {:induction false} BitLines(n: nat, h: nat)
    ensures Lines(8 * n, h) == 8 * Lines(n, h)
  {
    if h > 0 {
      BitLines(n, h - 1);
    }
  }

  lemma {:induction false} TrimmedNothing(bits: seq<Bit>, n: nat, h: nat)
    requires |bits| >= Lines(n, h)
    ensures Trimmed(bits, n, n, h) == bits[..Lines(n, h)]
  {
    if h > 0 {
      TrimmedNothing(bits, n, h - 1);
    }
  }

  /** Only the first lines of a buffer matter. */
  lemma {:induction false} TrimmedPrefix(bits: seq<Bit>, bits': seq<Bit>, olb: nat, ilb: nat, h: nat)
    requires olb <= ilb && |bits| >= |bits'| >= Lines(ilb, h) && forall k | 0 <= k < |bits'| :: bits[k] == bits'[k]
    ensures Trimmed(bits, olb, ilb, h) == Trimmed(bits', olb, ilb, h)
  {
    if h > 0 {
      TrimmedPrefix(bits, bits', olb, ilb, h - 1);
    }
  }

  lemma ImageBitsPrefix(s: seq<Byte>, n: nat)
    requires n <= |s|
    ensures ImageBits(s)[..8 * n] == ImageBits(s[..n])
  {
    hide BitOf;
  }

  /** post_process_scanlines: `data` holds the stored lines, and `out` receives the packed pixels. */
  method PostProcess(out: array<Byte>, data: array<Byte>, w: nat, h: nat, bpp: nat) returns (ok: bool)
    requires out != data && w > 0 && (bpp < 8 || bpp % 8 == 0)
    requires var linebytes := (w * bpp + 7) / 8;
             Lines(w * bpp, h) <= 8 * out.Length && Lines(linebytes, h) <= Lines(1 + linebytes, h) <= data.Length
    modifies out, data
    ensures ok == (bpp != 0 && old(GoodTypes(data[..], (w * bpp + 7) / 8, h)))
    ensures ok ==> ImageBits(out[..])[..Lines(w * bpp, h)] == old(PixelBits(data[..], w, h, bpp))
  {
    hide GoodTypes, Lines, Unfiltered, Trimmed, ImageBits;
    if bpp == 0 {
      return false;
    }
    PixelFits(w, bpp);
    var linebits: nat := w * bpp;
    var linebytes: nat := (linebits + 7) / 8;
    ghost var image := Unfiltered(data[..], linebytes, (bpp + 7) / 8, h);
    BitLines(linebytes, h);
    if bpp < 8 && linebits != 8 * linebytes {
      ok := Unfilter(data, data, w, h, bpp);
      if !ok {
        return;
      }
      assert data[..Lines(linebytes, h)] == image;
      ImageBitsPrefix(data[..], Lines(linebytes, h));
      TrimmedPrefix(ImageBits(data[..]), ImageBits(image), linebits, 8 * linebytes, h);
      RemovePaddingBits(out, data, linebits, 8 * linebytes, h);
    } else {
      WholeBytes(w, bpp);
      ok := Unfilter(out, data, w, h, bpp);
      if !ok {
        return;
      }
      ImageBitsPrefix(out[..], Lines(linebytes, h));
      TrimmedNothing(ImageBits(image), linebits, h);
    }
  }

  lemma WholeBytes(w: nat, bpp: nat)
    requires bpp >= 8 ==> bpp % 8 == 0
    requires bpp < 8 ==> w * bpp == 8 * ((w * bpp + 7) / 8)
    ensures w * bpp == 8 * ((w * bpp + 7) / 8)
  {
    if bpp >= 8 {
      MulAssoc(w, bpp / 8, 8);
      assert w * bpp == (w * (bpp / 8)) * 8;
    }
  }

  /** Where the bits of the packed pixels come from. */
  lemma {:induction false} TrimmedAt(bits: seq<Bit>, olb: nat, ilb: nat, h: nat, y: nat, x: nat)
    requires olb <= ilb && |bits| >= Lines(ilb, h) && y < h && x < olb
    ensures Lines(olb, y) + x < Lines(olb, h) && Lines(ilb, y) + x < Lines(ilb, h)
    ensures Trimmed(bits, olb, ilb, h)[Lines(olb, y) + x] == bits[Lines(ilb, y) + x]
  {
    if y < h - 1 {
      TrimmedAt(bits, olb, ilb, h - 1, y, x);
    }
  }

  /** Whatever filters its lines were stored with, an image gives its own pixels. */
  lemma PixelsRestored(types: seq<Byte>, image: seq<Byte>, w: nat, h: nat, bpp: nat)
    requires w > 0 && bpp > 0 && h <= |types| && |image| == Lines((w * bpp + 7) / 8, h)
    ensures var linebytes := (w * bpp + 7) / 8;
            && 0 < (bpp + 7) / 8 && 0 < linebytes && Lines(8 * linebytes, h) == 8 * |image|
            && PixelBits(FilterImage(types, image, linebytes, (bpp + 7) / 8, h), w, h, bpp)
               == Trimmed(ImageBits(image), w * bpp, 8 * linebytes, h)
  {
    hide Trimmed, ImageBits, FilterImage, Unfiltered, Lines;
    var linebytes := (w * bpp + 7) / 8;
    PixelFits(w, bpp);
    BitLines(linebytes, h);
    UnfilterFiltered(types, image, linebytes, (bpp + 7) / 8, h);
  }

  // ----- the size of the inflated buffer -----

  /** The size upng_decode allocates for the stored lines (line 1084). */
  function InflatedSize(w: nat, h: nat, bpp: nat): nat {
    w * (h * bpp + 7) / 8 + h
  }

  /** The buffer holds the stored lines exactly when the padding of all lines is within seven bits per column. */
  lemma InflatedSizeEnough(w: nat, h: nat, bpp: nat)
    ensures var linebytes: nat := (w * bpp + 7) / 8;
            InflatedSize(w, h, bpp) >= Lines(1 + linebytes, h) <==> h * (8 * linebytes - w * bpp) <= 7 * w
  {
    var linebytes: nat := (w * bpp + 7) / 8;
    LinesIs(1 + linebytes, h);
    var pixels, slack := w * bpp, 8 * linebytes - w * bpp;
    assert w * (h * bpp + 7) == h * pixels + 7 * w by { MulSwap(w, h, bpp); }
    assert h * (8 * linebytes) == h * pixels + h * slack by { MulPlus(h, pixels, slack); }
    assert (1 + linebytes) * h == h + linebytes * h;
    assert h * (8 * linebytes) == 8 * (linebytes * h);
  }

  lemma MulPlus(h: int, x: int, y: int)
    ensures h * (x + y) == h * x + h * y
  {}

  lemma MulSwap(w: nat, h: nat, bpp: nat)
    ensures w * (h * bpp + 7) == h * (w * bpp) + 7 * w
  {
    assert w * (h * bpp) == h * (w * bpp);
  }

  /** A one-bit image one pixel wide and nine high needs more than is allocated. */
  lemma InflatedSizeShort()
    ensures InflatedSize(1, 9, 1) < Lines(1 + (1 * 1 + 7) / 8, 9)
  {
    LinesIs(2, 9);
  }
}
