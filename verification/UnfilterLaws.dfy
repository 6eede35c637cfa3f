/** What an unfiltered image satisfies, byte by byte and bit by bit, in numbers. */
module UnfilterLaws {
  import opened Bits
  import opened Unfilter

  /** The byte `distance` places back in a line; before its start there are zeros. */
  function Back(line: seq<Byte>, k: nat, distance: nat): Byte
    requires k <= |line| && 0 < distance
  {
    if k < distance then 0 else line[k - distance]
  }

  /** `p` is nearest to left + up - corner, and no earlier one of left, up and corner is as near. */
  predicate Nearest(p: int, left: int, up: int, corner: int) {
    var e := left + up - corner;
    && (p == left || p == up || p == corner)
    && Abs(e - p) <= Abs(e - left) && Abs(e - p) <= Abs(e - up) && Abs(e - p) <= Abs(e - corner)
    && (p != left ==> Abs(e - p) < Abs(e - left)) && (p != left && p != up ==> Abs(e - p) < Abs(e - up))
  }

  /** What was added to a stored byte, by the five filter types of section 6 of RFC 2083. */
  predicate Added(filter: Byte, p: int, left: Byte, up: Byte, corner: Byte) {
    && (filter == 0 ==> p == 0)
    && (filter == 1 ==> p == left)
    && (filter == 2 ==> p == up)
    && (filter == 3 ==> 2 * p <= left as int + up <= 2 * p + 1)
    && (filter == 4 ==> Nearest(p, left, up, corner))
  }

  lemma PredictIs(filter: Byte, left: Byte, up: Byte, corner: Byte)
    ensures 0 <= Predict(filter, left, up, corner) < 256
    ensures Added(filter, Predict(filter, left, up, corner), left, up, corner)
  {
    hide PaethPredictor;
  }

  /** Every byte of a restored line, from the bytes before it and those of the line above. */
  lemma RestoredByte(filter: Byte, bytewidth: nat, prev: seq<Byte>, scan: seq<Byte>, k: nat)
    requires 0 < bytewidth && |prev| == |scan| && k < |scan| && filter <= 4
    ensures var line := Restored(filter, bytewidth, prev, scan, |scan|);
            Added(filter, (line[k] as int - scan[k]) % 256, Back(line, k, bytewidth), prev[k], Back(prev, k, bytewidth))
  {
    hide Restored, Predict, Added;
    var line := Restored(filter, bytewidth, prev, scan, |scan|);
    RestoredAt(filter, bytewidth, prev, scan, |scan|, k);
    var left, corner := Back(line, k, bytewidth), Back(prev, k, bytewidth);
    PredictIs(filter, left, prev[k], corner);
    Difference(scan[k], Predict(filter, left, prev[k], corner));
  }

  lemma Difference(x: Byte, p: Byte)
    ensures ((x as int + p) % 256 - x) % 256 == p
  {}

  /** Line `y` of an image. */
  function Row(image: seq<Byte>, linebytes: nat, y: nat): (r: seq<Byte>)
    requires Lines(linebytes, y + 1) <= |image|
    ensures |r| == linebytes
  {
    image[Lines(linebytes, y)..Lines(linebytes, y) + linebytes]
  }

  /** The line above line `y`. */
  function RowAbove(image: seq<Byte>, linebytes: nat, y: nat): (r: seq<Byte>)
    requires Lines(linebytes, y + 1) <= |image|
    ensures |r| == linebytes
  {
    if y == 0 then Zeros(linebytes) else Row(image, linebytes, y - 1)
  }

  /** Every line of an unfiltered image is restored from its stored form and the line above it. */
  lemma {:induction false} UnfilteredRow(scan: seq<Byte>, linebytes: nat, bytewidth: nat, h: nat, y: nat)
    requires 0 < bytewidth && 0 < linebytes && y < h && |scan| >= Lines(1 + linebytes, h)
    ensures Lines(linebytes, y + 1) <= Lines(linebytes, h)
    ensures Lines(1 + linebytes, y + 1) <= |scan| && Lines(1 + linebytes, y) < |scan|
    ensures var image := Unfiltered(scan, linebytes, bytewidth, h);
            Row(image, linebytes, y) ==
            Restored(scan[Lines(1 + linebytes, y)], bytewidth, RowAbove(image, linebytes, y), Scanline(scan, linebytes, y), linebytes)
    decreases h
  {
    hide Restored, Scanline, Unfiltered;
    LineRoom(linebytes, y, h);
    LineRoom(linebytes, h - 1, h);
    UnfilteredStep(scan, linebytes, bytewidth, h - 1);
    var rows, image := Unfiltered(scan, linebytes, bytewidth, h - 1), Unfiltered(scan, linebytes, bytewidth, h);
    if y < h - 1 {
      UnfilteredRow(scan, linebytes, bytewidth, h - 1, y);
      RowsKept(rows, image, linebytes, y);
    } else if y > 0 {
      LastRow(rows, image, linebytes, y);
    }
  }

  lemma RowsKept(rows: seq<Byte>, image: seq<Byte>, linebytes: nat, y: nat)
    requires Lines(linebytes, y + 1) <= |rows| <= |image| && image[..|rows|] == rows
    ensures Row(image, linebytes, y) == Row(rows, linebytes, y) && RowAbove(image, linebytes, y) == RowAbove(rows, linebytes, y)
  {
    assert forall i | 0 <= i < |rows| :: image[i] == image[..|rows|][i] == rows[i];
  }

  lemma LastRow(rows: seq<Byte>, image: seq<Byte>, linebytes: nat, y: nat)
    requires y > 0 && |rows| == Lines(linebytes, y) && Lines(linebytes, y + 1) <= |image| && image[..|rows|] == rows && linebytes > 0
    ensures RowAbove(image, linebytes, y) == Above(rows, linebytes)
  {
    assert forall i | 0 <= i < |rows| :: image[i] == image[..|rows|][i] == rows[i];
  }

  /** The bits of a byte are its binary digits, the most significant first. */
  lemma BinaryDigits(b: Byte)
    ensures b == 128 * BitOf(b, 0) + 64 * BitOf(b, 1) + 32 * BitOf(b, 2) + 16 * BitOf(b, 3) +
                 8 * BitOf(b, 4) + 4 * BitOf(b, 5) + 2 * BitOf(b, 6) + BitOf(b, 7)
  {
    NextDigit(b, 1);
    NextDigit(b, 2);
    NextDigit(b, 3);
    NextDigit(b, 4);
    NextDigit(b, 5);
    NextDigit(b, 6);
    NextDigit(b, 7);
    assert b / Weight(0) == BitOf(b, 0) && b / Weight(7) == b;
    hide BitOf, Weight;
  }

  lemma NextDigit(b: Byte, k: nat)
    requires 0 < k < 8
    ensures b / Weight(k) == 2 * (b / Weight(k - 1)) + BitOf(b, k)
  {
    assert Weight(k - 1) == Weight(k) * 2;
    hide Weight;
    DivDiv(b, Weight(k), 2);
  }

  /** Bit `k` of byte `i` of a buffer is bit 8i + k of it. */
  lemma ImageBit(s: seq<Byte>, i: nat, k: nat)
    requires i < |s| && k < 8
    ensures ImageBits(s)[8 * i + k] == BitOf(s[i], k)
  {
    hide BitOf;
    assert (8 * i + k) / 8 == i && (8 * i + k) % 8 == k;
  }
}
