/** RGBA8 textures in tiles of four by four pixels: the converter of metaphrasis.c and the pixel access of GRRLIB_pixel.h. */
module Texture {
  import opened Bits

  /** The width and height of a texture are multiples of four that fit a 16-bit counter. */
  predicate Dimensions(w: nat, h: nat) {
    0 < w < 65536 && 0 < h < 65536 && w % 4 == 0 && h % 4 == 0
  }

  /** GRRLIB's offset of the alpha byte of pixel (x, y); red follows it, green and blue come 32 bytes later. */
  function Offset(x: nat, y: nat, w: nat): nat {
    4 * (y - y % 4) * w + 16 * (x - x % 4) + 2 * (4 * (y % 4) + x % 4)
  }

  /** A byte of a texture belongs to a channel of a pixel; channels are numbered as in the RGBA source. */
  datatype Place = Place(x: nat, y: nat, channel: nat)

  /** What byte `q` of a texture holds. */
  function PlaceOf(q: nat, w: nat): Place
    requires w >= 4
  {
    var tile, r := q / 64, q % 64;
    var across := w / 4;
    Place(4 * (tile % across) + r % 8 / 2, 4 * (tile / across) + r % 32 / 8,
          if r < 32 then (if r % 2 == 0 then 3 else 0) else (if r % 2 == 0 then 1 else 2))
  }

  /** Where a channel of a pixel is found. */
  function ByteAt(p: Place, w: nat): nat {
    Offset(p.x, p.y, w) + (match p.channel case 3 => 0 case 0 => 1 case 1 => 32 case _ => 33)
  }

  function Bytes(w: nat, h: nat): nat {
    4 * (w * h)
  }

  /** The number of the tile of pixel (x, y), row by row. */
  function Tile(x: nat, y: nat, w: nat): nat {
    y / 4 * (w / 4) + x / 4
  }

  /** The offset counts whole tiles of 64 bytes. */
  lemma OffsetIs(x: nat, y: nat, w: nat)
    requires w % 4 == 0
    ensures Offset(x, y, w) == 64 * Tile(x, y, w) + 8 * (y % 4) + 2 * (x % 4)
  {
    var b, c := y / 4, w / 4;
    assert y - y % 4 == 4 * b && x - x % 4 == 4 * (x / 4) && w == 4 * c;
    MulFour(b, c);
  }

  lemma MulFour(b: nat, c: nat)
    ensures 4 * (4 * b) * (4 * c) == 64 * (b * c)
  {}

  /** All tiles are inside the texture, which is full of them. */
  lemma TileInside(x: nat, y: nat, w: nat, h: nat)
    requires Dimensions(w, h) && x < w && y < h
    ensures 64 * Tile(x, y, w) + 64 <= Bytes(w, h)
  {
    TilesIn(w, h);
    MulLe(w / 4, y / 4 + 1, h / 4);
    assert w / 4 * (y / 4 + 1) == y / 4 * (w / 4) + w / 4;
  }

  lemma TilesIn(w: nat, h: nat)
    requires w % 4 == 0 && h % 4 == 0
    ensures Bytes(w, h) == 64 * (w / 4 * (h / 4))
  {
    var a, b := w / 4, h / 4;
    assert w == 4 * a && h == 4 * b;
    MulFour(a, b);
    assert 4 * (w * h) == 4 * w * h;
  }

  lemma TileSplit(x: nat, y: nat, w: nat)
    requires w % 4 == 0 && x < w
    ensures Tile(x, y, w) / (w / 4) == y / 4 && Tile(x, y, w) % (w / 4) == x / 4
  {
    DivModUnique(Tile(x, y, w), w / 4, y / 4, x / 4);
  }

  lemma InTile(t: nat, y: nat, x: nat, d: nat)
    requires y < 4 && x < 4 && d in {0, 1, 32, 33}
    ensures var q := 64 * t + 8 * y + 2 * x + d; var r := q % 64;
            q / 64 == t && r % 8 / 2 == x && r % 32 / 8 == y && (r < 32 <==> d < 32) && r % 2 == d % 2
  {
    var q, r := 64 * t + 8 * y + 2 * x + d, 8 * y + 2 * x + d;
    DivModUnique(q, 64, t, r);
    DivModUnique(r, 32, if d < 32 then 0 else 1, 8 * y + 2 * x + d % 2);
    DivModUnique(r, 8, if d < 32 then y else y + 4, 2 * x + d % 2);
    DivModUnique(8 * y + 2 * x + d % 2, 8, y, 2 * x + d % 2);
    DivModUnique(2 * x + d % 2, 2, x, d % 2);
  }

  /** The two maps are inverse to each other: no byte is shared, and none is unused. */
  lemma PlaceOfByte(p: Place, w: nat, h: nat)
    requires Dimensions(w, h) && p.x < w && p.y < h && p.channel < 4
    ensures ByteAt(p, w) < Bytes(w, h) && PlaceOf(ByteAt(p, w), w) == p
  {
    hide Offset, Tile, Bytes;
    OffsetIs(p.x, p.y, w);
    TileInside(p.x, p.y, w, h);
    TileSplit(p.x, p.y, w);
    InTile(Tile(p.x, p.y, w), p.y % 4, p.x % 4, match p.channel case 3 => 0 case 0 => 1 case 1 => 32 case _ => 33);
  }

  lemma ByteOfPlace(q: nat, w: nat, h: nat)
    requires Dimensions(w, h) && q < Bytes(w, h)
    ensures var p := PlaceOf(q, w); p.x < w && p.y < h && p.channel < 4 && ByteAt(p, w) == q
  {
    var p := PlaceOf(q, w);
    var across, tile, r := w / 4, q / 64, q % 64;
    InRow(r);
    TileBelow(tile, across, h / 4) by { TilesIn(w, h); }
    assert p.x / 4 == tile % across && p.y / 4 == tile / across;
    assert p.x % 4 == r % 8 / 2 && p.y % 4 == r % 32 / 8;
    TileWhole(tile, across);
    hide Offset, Bytes;
    OffsetIs(p.x, p.y, w);
  }

  lemma InRow(r: nat)
    requires r < 64
    ensures r % 32 / 8 < 4 && r % 8 / 2 < 4
    ensures r == 8 * (r % 32 / 8) + 2 * (r % 8 / 2) + r % 2 + if r < 32 then 0 else 32
  {}

  lemma TileWhole(tile: nat, across: nat)
    requires across > 0
    ensures tile / across * across + tile % across == tile
  {}

  lemma TileBelow(tile: nat, across: nat, down: nat)
    requires across > 0 && tile < across * down
    ensures tile / across < down
  {
    if tile / across >= down {
      MulLe(across, down, tile / across);
      assert false;
    }
  }

  /** Where the four bytes of a pixel begin in the source. */
  function PixelIndex(x: nat, y: nat, w: nat): nat {
    4 * (y * w + x)
  }

  /** Where the four channels of a pixel are: alpha and red side by side, green and blue 32 bytes later. */
  lemma ChannelLayout(x: nat, y: nat, w: nat)
    requires w % 4 == 0
    ensures var at := 64 * (y / 4 * (w / 4) + x / 4) + 8 * (y % 4) + 2 * (x % 4);
            && ByteAt(Place(x, y, 3), w) == at && ByteAt(Place(x, y, 0), w) == at + 1
            && ByteAt(Place(x, y, 1), w) == at + 32 && ByteAt(Place(x, y, 2), w) == at + 33
  {
    OffsetIs(x, y, w);
    hide Offset;
  }

  /** The source byte that byte `q` of the texture is made from. */
  function Texel(src: seq<Byte>, w: nat, q: nat): Byte
    requires w >= 4
  {
    var p := PlaceOf(q, w);
    var k := PixelIndex(p.x, p.y, w) + p.channel;
    if k < |src| then src[k] else 0
  }

  /** Where the converter stands: column `i` of the tile row that begins at line `block`. */
  function TileStart(block: nat, i: nat, w: nat): nat {
    16 * (block / 4 * w + i)
  }

  /** A byte of the texture is the channel of the source pixel whose place it is. */
  lemma TexelIs(src: seq<Byte>, w: nat, p: Place, q: nat, first: nat)
    requires w >= 4 && PlaceOf(q, w) == p && PixelIndex(p.x, p.y, w) == first && first + p.channel < |src|
    ensures Texel(src, w, q) == src[first + p.channel]
  {
    hide PlaceOf, PixelIndex;
  }

  /** A pixel's four bytes, and the four bytes of the texture they go to. */
  lemma PixelTexels(src: seq<Byte>, x: nat, y: nat, w: nat, h: nat, at: nat, first: nat)
    requires Dimensions(w, h) && |src| == Bytes(w, h) && x < w && y < h
    requires at == Offset(x, y, w) && first == PixelIndex(x, y, w)
    ensures at + 33 < |src| && first + 3 < |src|
    ensures Texel(src, w, at) == src[first + 3] && Texel(src, w, at + 1) == src[first]
    ensures Texel(src, w, at + 32) == src[first + 1] && Texel(src, w, at + 33) == src[first + 2]
  {
    assert w >= 4;
    hide PlaceOf, PixelIndex, Bytes, Dimensions, Offset, Texel;
    PixelInside(x, y, w, h);
    PlaceOfByte(Place(x, y, 3), w, h);
    PlaceOfByte(Place(x, y, 0), w, h);
    PlaceOfByte(Place(x, y, 1), w, h);
    PlaceOfByte(Place(x, y, 2), w, h);
    TexelIs(src, w, Place(x, y, 3), at, first);
    TexelIs(src, w, Place(x, y, 0), at + 1, first);
    TexelIs(src, w, Place(x, y, 1), at + 32, first);
    TexelIs(src, w, Place(x, y, 2), at + 33, first);
  }

  /** Pixel `k` of row `c` of a tile. */
  lemma TileRow(src: seq<Byte>, w: nat, h: nat, block: nat, i: nat, c: nat, k: nat)
    requires Dimensions(w, h) && |src| == Bytes(w, h)
    requires block < h && block % 4 == 0 && i < w && i % 4 == 0 && c < 4 && k < 4
    ensures PixelIndex(i, block + c, w) + 4 * k + 3 < |src| && TileStart(block, i, w) + 8 * c + 2 * k + 33 < |src|
    ensures var at, p := TileStart(block, i, w) + 8 * c + 2 * k, PixelIndex(i, block + c, w) + 4 * k;
            && Texel(src, w, at) == src[p + 3] && Texel(src, w, at + 1) == src[p]
            && Texel(src, w, at + 32) == src[p + 1] && Texel(src, w, at + 33) == src[p + 2]
  {
    hide Bytes, Offset, Texel, Tile, TileStart, PixelIndex;
    var x, y := i + k, block + c;
    TileStartIs(block, i, c, k, w);
    OffsetIs(x, y, w);
    NextPixel(i, k, y, w);
    PixelTexels(src, x, y, w, h, Offset(x, y, w), PixelIndex(x, y, w));
  }

  lemma NextPixel(x: nat, k: nat, y: nat, w: nat)
    ensures PixelIndex(x + k, y, w) == PixelIndex(x, y, w) + 4 * k
  {}

  lemma TileStartIs(block: nat, i: nat, c: nat, k: nat, w: nat)
    requires w % 4 == 0 && block % 4 == 0 && i % 4 == 0 && c < 4 && k < 4
    ensures (i + k) % 4 == k && (block + c) % 4 == c && TileStart(block, i, w) == 64 * Tile(i + k, block + c, w)
  {
    assert (i + k) / 4 == i / 4 && (block + c) / 4 == block / 4;
    var b, a := block / 4, w / 4;
    assert w == 4 * a;
    assert b * w == 4 * (b * a);
  }

  lemma PixelInside(x: nat, y: nat, w: nat, h: nat)
    requires x < w && y < h
    ensures PixelIndex(x, y, w) + 3 < Bytes(w, h)
  {
    MulLe(w, y + 1, h);
  }

  /** The first `n` bytes of the texture have been written. */
  ghost predicate Written(src: array<Byte>, dst: array<Byte>, w: nat, n: nat)
    reads src, dst
  {
    w >= 4 && n <= dst.Length && forall q | 0 <= q < n :: dst[q] == Texel(src[..], w, q)
  }

  /** One round of the first inner loop: alpha and red of four pixels. */
  method PutAlphaRed(src: array<Byte>, dst: array<Byte>, at: nat, w: nat, h: nat, block: nat, i: nat, c: nat)
    requires Dimensions(w, h) && src.Length == dst.Length == Bytes(w, h) && src != dst
    requires block < h && block % 4 == 0 && i < w && i % 4 == 0 && c < 4
    requires at == TileStart(block, i, w) + 8 * c && Written(src, dst, w, at)
    modifies dst
    ensures Written(src, dst, w, at + 8)
  {
    hide Dimensions, Texel, TileStart, Bytes, PixelIndex;
    TileRow(src[..], w, h, block, i, c, 0);
    TileRow(src[..], w, h, block, i, c, 1);
    TileRow(src[..], w, h, block, i, c, 2);
    TileRow(src[..], w, h, block, i, c, 3);
    var blockWid := PixelIndex(i, block + c, w);
    dst[at] := src[blockWid + 3];
    dst[at + 1] := src[blockWid];
    dst[at + 2] := src[blockWid + 7];
    dst[at + 3] := src[blockWid + 4];
    dst[at + 4] := src[blockWid + 11];
    dst[at + 5] := src[blockWid + 8];
    dst[at + 6] := src[blockWid + 15];
    dst[at + 7] := src[blockWid + 12];
  }

  /** One round of the second inner loop: green and blue of four pixels. */
  method PutGreenBlue(src: array<Byte>, dst: array<Byte>, at: nat, w: nat, h: nat, block: nat, i: nat, c: nat)
    requires Dimensions(w, h) && src.Length == dst.Length == Bytes(w, h) && src != dst
    requires block < h && block % 4 == 0 && i < w && i % 4 == 0 && c < 4
    requires at == TileStart(block, i, w) + 32 + 8 * c && Written(src, dst, w, at)
    modifies dst
    ensures Written(src, dst, w, at + 8)
  {
    hide Dimensions, Texel, TileStart, Bytes, PixelIndex;
    TileRow(src[..], w, h, block, i, c, 0);
    TileRow(src[..], w, h, block, i, c, 1);
    TileRow(src[..], w, h, block, i, c, 2);
    TileRow(src[..], w, h, block, i, c, 3);
    var blockWid := PixelIndex(i, block + c, w);
    dst[at] := src[blockWid + 1];
    dst[at + 1] := src[blockWid + 2];
    dst[at + 2] := src[blockWid + 5];
    dst[at + 3] := src[blockWid + 6];
    dst[at + 4] := src[blockWid + 9];
    dst[at + 5] := src[blockWid + 10];
    dst[at + 6] := src[blockWid + 13];
    dst[at + 7] := src[blockWid + 14];
  }

  /** Metaphrasis_convertBufferToRGBA8. */
  method ConvertBufferToRGBA8(src: array<Byte>, out: array<Byte>, w: nat, h: nat)
    requires Dimensions(w, h) && src.Length == out.Length == Bytes(w, h) && src != out
    modifies out
    ensures forall q | 0 <= q < out.Length :: out[q] == Texel(src[..], w, q)
  {
    hide Texel, TileStart, Bytes;
    var dst: nat := 0;
    var block: nat := 0;
    StartOfTiles(w);
    while block < h
      invariant block <= h && block % 4 == 0 && dst == TileStart(block, 0, w) && Written(src, out, w, dst)
    {
      var i: nat := 0;
      while i < w
        invariant i <= w && i % 4 == 0 && dst == TileStart(block, i, w) && Written(src, out, w, dst)
      {
        for c: nat := 0 to 4
          invariant dst == TileStart(block, i, w) + 8 * c && Written(src, out, w, dst)
        {
          PutAlphaRed(src, out, dst, w, h, block, i, c);
          dst := dst + 8;
        }
        for c: nat := 0 to 4
          invariant dst == TileStart(block, i, w) + 32 + 8 * c && Written(src, out, w, dst)
        {
          PutGreenBlue(src, out, dst, w, h, block, i, c);
          dst := dst + 8;
        }
        NextTile(block, i, w);
        i := i + 4;
      }
      NextTileRow(block, w);
      block := block + 4;
    }
    EndOfTiles(w, h);
  }

  lemma StartOfTiles(w: nat)
    ensures TileStart(0, 0, w) == 0
  {}

  lemma NextTile(block: nat, i: nat, w: nat)
    ensures TileStart(block, i + 4, w) == TileStart(block, i, w) + 64
  {}

  lemma NextTileRow(block: nat, w: nat)
    requires block % 4 == 0
    ensures TileStart(block, w, w) == TileStart(block + 4, 0, w)
  {
    assert (block + 4) / 4 == block / 4 + 1;
  }

  lemma EndOfTiles(w: nat, h: nat)
    requires Dimensions(w, h)
    ensures TileStart(h, 0, w) == Bytes(w, h)
  {
    assert w * h == w * (4 * (h / 4)) == 4 * (h / 4 * w);
  }

  // ----- pixel access -----

  type Color = x: nat | x < 0x1_0000_0000

  /** A big-endian half word. */
  function Half(data: seq<Byte>, at: nat): nat
    requires at + 1 < |data|
  {
    data[at] as nat * 256 + data[at + 1]
  }

  /** A pixel's four bytes are inside a texture. */
  lemma OffsetInside(x: nat, y: nat, w: nat, h: nat)
    requires Dimensions(w, h) && x < w && y < h
    ensures Offset(x, y, w) + 33 < Bytes(w, h)
  {
    PlaceOfByte(Place(x, y, 2), w, h);
  }

  /** GRRLIB_GetPixelFromtexImg: the shift to the left by 24 keeps only the low byte. */
  function GetPixel(data: seq<Byte>, x: nat, y: nat, w: nat, h: nat): Color
    requires Dimensions(w, h) && |data| == Bytes(w, h) && x < w && y < h
  {
    OffsetInside(x, y, w, h);
    var offs := Offset(x, y, w);
    var ar := Half(data, offs);
    ar % 256 * 0x100_0000 + Half(data, offs + 32) * 256 + ar / 256
  }

  /** GRRLIB_SetPixelTotexImg. */
  method SetPixel(data: array<Byte>, x: nat, y: nat, w: nat, h: nat, color: Color)
    requires Dimensions(w, h) && data.Length == Bytes(w, h) && x < w && y < h
    modifies data
    ensures data[..] == old(WithPixel(data[..], x, y, w, h, color))
  {
    hide Dimensions, Offset, Bytes;
    OffsetInside(x, y, w, h);
    var offs: nat := Offset(x, y, w);
    ColorParts(color);
    var ar: nat := color * 256 % 65536 + color / 0x100_0000;
    var gb: nat := color / 256 % 65536;
    data[offs], data[offs + 1] := ar / 256, ar % 256;
    data[offs + 32], data[offs + 33] := gb / 256, gb % 256;
  }

  /** A color is its four bytes. */
  lemma ColorBytes(c: Color)
    ensures var (r, g, b, a) := (c / 0x100_0000, c / 0x1_0000 % 256, c / 256 % 256, c % 256);
            && r < 256 && c / 256 == r * 0x1_0000 + g * 256 + b
            && c == r * 0x100_0000 + (g * 256 + b) * 256 + a
  {
    var t1 := c / 256;
    var t2 := t1 / 256;
    DivDiv(c, 256, 256);
    DivDiv(c, 0x1_0000, 256);
    assert c == 256 * t1 + c % 256 && t1 == 256 * t2 + t1 % 256 && t2 == 256 * (t2 / 256) + t2 % 256;
  }

  lemma ColorParts(c: Color)
    ensures var ar := c * 256 % 65536 + c / 0x100_0000;
            ar == c % 256 * 256 + c / 0x100_0000 && ar / 256 == c % 256 && ar % 256 == c / 0x100_0000
    ensures var gb := c / 256 % 65536;
            gb == c / 0x1_0000 % 256 * 256 + c / 256 % 256 && gb / 256 == c / 0x1_0000 % 256 && gb % 256 == c / 256 % 256
  {
    ColorBytes(c);
    var r, g, b, a: nat := c / 0x100_0000, c / 0x1_0000 % 256, c / 256 % 256, c % 256;
    DivModUnique(c * 256, 65536, r * 0x1_0000 + g * 256 + b, a * 256);
    DivModUnique(c / 256, 65536, r, g * 256 + b);
    DivModUnique(a * 256 + r, 256, a, r);
    DivModUnique(g * 256 + b, 256, g, b);
  }

  /** A texture with one pixel replaced: alpha, red, green and blue each in its place. */
  function WithPixel(data: seq<Byte>, x: nat, y: nat, w: nat, h: nat, color: Color): (r: seq<Byte>)
    requires Dimensions(w, h) && |data| == Bytes(w, h) && x < w && y < h
    ensures |r| == |data|
  {
    OffsetInside(x, y, w, h);
    var offs := Offset(x, y, w);
    data[offs := color % 256][offs + 1 := color / 0x100_0000]
        [offs + 32 := color / 0x1_0000 % 256][offs + 33 := color / 256 % 256]
  }

  lemma FourBytes(data: seq<Byte>, o: nat, a: Byte, r: Byte, g: Byte, b: Byte)
    requires o + 33 < |data|
    ensures var s := data[o := a][o + 1 := r][o + 32 := g][o + 33 := b];
            && Half(s, o) == a as nat * 256 + r && Half(s, o + 32) == g as nat * 256 + b
            && forall k | 0 <= k < |data| && k != o && k != o + 1 && k != o + 32 && k != o + 33 :: s[k] == data[k]
  {}

  /** The half words of a texture with one pixel replaced. */
  lemma WithPixelHalves(data: seq<Byte>, x: nat, y: nat, w: nat, h: nat, color: Color)
    requires Dimensions(w, h) && |data| == Bytes(w, h) && x < w && y < h
    ensures var s, o := WithPixel(data, x, y, w, h, color), Offset(x, y, w);
            && o + 33 < |s| && Half(s, o) == color % 256 * 256 + color / 0x100_0000 && Half(s, o + 32) == color / 256 % 65536
            && forall k | 0 <= k < |s| && k != o && k != o + 1 && k != o + 32 && k != o + 33 :: s[k] == data[k]
  {
    hide Dimensions, Offset, Bytes;
    OffsetInside(x, y, w, h);
    ColorParts(color);
    FourBytes(data, Offset(x, y, w), color % 256, color / 0x100_0000, color / 0x1_0000 % 256, color / 256 % 256);
  }

  lemma ColorAgain(c: Color)
    ensures var ar := c % 256 * 256 + c / 0x100_0000; ar % 256 * 0x100_0000 + c / 256 % 65536 * 256 + ar / 256 == c
  {
    ColorBytes(c);
    ColorParts(c);
  }

  /** Setting one pixel changes that pixel and no other. */
  lemma SetThenGet(data: seq<Byte>, x: nat, y: nat, w: nat, h: nat, color: Color, x': nat, y': nat)
    requires Dimensions(w, h) && |data| == Bytes(w, h) && x < w && y < h && x' < w && y' < h
    ensures GetPixel(WithPixel(data, x, y, w, h, color), x', y', w, h) ==
            if x' == x && y' == y then color else GetPixel(data, x', y', w, h)
  {
    hide Dimensions, Offset, Bytes, WithPixel;
    OffsetInside(x', y', w, h);
    WithPixelHalves(data, x, y, w, h, color);
    if x' != x || y' != y {
      PixelsApart(x, y, x', y', w, h);
      var s, q := WithPixel(data, x, y, w, h, color), Offset(x', y', w);
      assert Half(s, q) == Half(data, q) && Half(s, q + 32) == Half(data, q + 32);
    } else {
      ColorAgain(color);
    }
  }

  /** The bytes of different pixels are different. */
  lemma PixelsApart(x: nat, y: nat, x': nat, y': nat, w: nat, h: nat)
    requires Dimensions(w, h) && x < w && y < h && x' < w && y' < h && (x, y) != (x', y')
    ensures var p, q := Offset(x, y, w), Offset(x', y', w);
            p != q && p != q + 32 && p + 32 != q && p % 2 == 0 && q % 2 == 0
  {
    hide Dimensions, Offset;
    forall c, c' | c in {1, 3} && c' in {1, 3} ensures ByteAt(Place(x, y, c), w) != ByteAt(Place(x', y', c'), w) {
      PlaceOfByte(Place(x, y, c), w, h);
      PlaceOfByte(Place(x', y', c'), w, h);
    }
    assert ByteAt(Place(x, y, 1), w) != ByteAt(Place(x', y', 3), w);
    assert ByteAt(Place(x, y, 3), w) != ByteAt(Place(x', y', 1), w);
    assert ByteAt(Place(x, y, 3), w) != ByteAt(Place(x', y', 3), w);
    OffsetEven(x, y, w, h);
    OffsetEven(x', y', w, h);
  }

  lemma OffsetEven(x: nat, y: nat, w: nat, h: nat)
    requires Dimensions(w, h)
    ensures Offset(x, y, w) % 2 == 0
  {
    hide Offset, Tile;
    OffsetIs(x, y, w);
  }

  /** Reading a pixel of a converted texture gives the source pixel, in the byte order red, green, blue, alpha. */
  lemma ConvertedPixel(src: seq<Byte>, texture: seq<Byte>, x: nat, y: nat, w: nat, h: nat)
    requires Dimensions(w, h) && |src| == |texture| == Bytes(w, h) && x < w && y < h
    requires forall q | 0 <= q < |texture| :: texture[q] == Texel(src, w, q)
    ensures var p := PixelIndex(x, y, w);
            && p + 3 < |src|
            && GetPixel(texture, x, y, w, h) == src[p] as nat * 0x100_0000 + src[p + 1] as nat * 0x1_0000 + src[p + 2] as nat * 0x100 + src[p + 3]
  {
    hide Dimensions, Offset, Bytes, PixelIndex, Texel;
    OffsetInside(x, y, w, h);
    PixelTexels(src, x, y, w, h, Offset(x, y, w), PixelIndex(x, y, w));
    HalfBytes(src[PixelIndex(x, y, w) + 3], src[PixelIndex(x, y, w)]);
  }

  lemma HalfBytes(a: Byte, r: Byte)
    ensures (a as nat * 256 + r) / 256 == a && (a as nat * 256 + r) % 256 == r
  {}
}
