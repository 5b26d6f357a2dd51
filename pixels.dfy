/** How the engine reads the caller's pixel planes: the bytes of one pixel
    in each layout, its luma, the key a mask pixel is compared with, and the
    colour distance of two pixels used by the patch search. */
module Pixels {
  import opened Grid
  import opened Defs

  /** The caller's planes. `main` is the interleaved buffer (or the luma
      plane of YV12); `u` and `v` are the YV12 chroma planes, subsampled by
      two in both directions (unused by the other layouts). Every row of a
      plane is one pitch of bytes, so a row may be longer than its pixels. */
  datatype Frame = Frame(main: Plane<byte>, u: Plane<byte>, v: Plane<byte>)

  /** Bytes of one pixel in `main`; also the bytes a patch copy moves. */
  function BytesPerPixel(f: EngineFormat): nat
  {
    if f == RGBA || f == RGB32 then 4 else if f == RGB24 || f == YUV24 then 3 else 1
  }

  /** Offset of pixel `x` in a row of `main`. */
  function Offset(f: EngineFormat, x: int): int
  {
    if f == RGBA || f == RGB32 then 4 * x else if f == RGB24 || f == YUV24 then 3 * x else x
  }

  /** Offset of byte `d` of pixel `x` in a row of `main`. */
  function ByteAt(f: EngineFormat, x: int, d: int): int
  {
    Offset(f, x) + d
  }

  /** Bytes of `w` pixels in a row of `main`. */
  function RowBytes(f: EngineFormat, w: int): int
  {
    Offset(f, w)
  }

  /** The bytes of a pixel are its own: byte `d` of pixel `x` lies among
      the bytes of pixel `x1` only when `x == x1`, and before the end of the
      row when `x` is in it. */
  lemma ByteAtSeparate(f: EngineFormat, x: int, x1: int, d: int, w: int)
    requires 0 <= d < BytesPerPixel(f)
    ensures ByteAt(f, x1, 0) <= ByteAt(f, x, d) < ByteAt(f, x1, BytesPerPixel(f)) <==> x == x1
    ensures 0 <= x < w ==> 0 <= ByteAt(f, x, d) < RowBytes(f, w)
  {
  }

  /** The planes of `fr` are large enough for a `w` by `h` frame in layout `f`. */
  ghost predicate FrameOk(f: EngineFormat, fr: Frame, w: int, h: int)
  {
    Covers(fr.main, RowBytes(f, w), h) &&
    (f == YV12 ==> Covers(fr.u, (w + 1) / 2, (h + 1) / 2) && Covers(fr.v, (w + 1) / 2, (h + 1) / 2))
  }

  /** The three channels the patch search compares: B, G, R for the RGB
      layouts, Y, U, V for YUV24, and Y with the chroma sample shared by a
      2 by 2 block for YV12. */
  function Channels(f: EngineFormat, fr: Frame, w: int, h: int, x: int, y: int): (int, int, int)
    requires FrameOk(f, fr, w, h) && InFrame(x, y, w, h)
  {
    if f == YV12 then
      (fr.main[y][x] as int, fr.u[y / 2][x / 2] as int, fr.v[y / 2][x / 2] as int)
    else
      (fr.main[y][ByteAt(f, x, 0)] as int, fr.main[y][ByteAt(f, x, 1)] as int, fr.main[y][ByteAt(f, x, 2)] as int)
  }

  function Abs(a: int): nat { if a < 0 then -a else a }

  /** Sum of absolute channel differences of pixels `(tx, ty)` and `(sx, sy)`. */
  function CellDiff(f: EngineFormat, fr: Frame, w: int, h: int, tx: int, ty: int, sx: int, sy: int): (d: nat)
    requires FrameOk(f, fr, w, h) && InFrame(tx, ty, w, h) && InFrame(sx, sy, w, h)
    ensures d <= 3 * 255
    ensures (tx, ty) == (sx, sy) ==> d == 0
  {
    var (a0, a1, a2) := Channels(f, fr, w, h, tx, ty);
    var (b0, b1, b2) := Channels(f, fr, w, h, sx, sy);
    Abs(a0 - b0) + Abs(a1 - b1) + Abs(a2 - b2)
  }

  /** BT.601-like luma of blue, green and red bytes in 15-bit fixed point. */
  function RgbLuma(b: byte, g: byte, r: byte): (l: byte)
    ensures (b == g == r) ==> l == b
  {
    assert b as int * 3735 + g as int * 19268 + r as int * 9765 <= 255 * 32768;
    ((b as int * 3735 + g as int * 19268 + r as int * 9765) / 32768) as byte
  }

  /** The gray value the engine derives for pixel `(x, y)`: the luma of the
      RGB bytes, the Y byte of YUV24, and the luma sample itself for YV12. */
  function Luma(f: EngineFormat, fr: Frame, w: int, h: int, x: int, y: int): byte
    requires FrameOk(f, fr, w, h) && InFrame(x, y, w, h)
  {
    if f == YV12 || f == YUV24 then fr.main[y][ByteAt(f, x, 0)]
    else RgbLuma(fr.main[y][ByteAt(f, x, 0)], fr.main[y][ByteAt(f, x, 1)], fr.main[y][ByteAt(f, x, 2)])
  }

  /** The gray grid holds the luma of every pixel of the picture. */
  ghost predicate GrayIsLuma(f: EngineFormat, fr: Frame, gray: Plane<byte>, w: int, h: int)
  {
    FrameOk(f, fr, w, h) && IsGrid(gray, w, h) &&
    forall y, x :: 0 <= y < h && 0 <= x < w ==> gray[y][x] == Luma(f, fr, w, h, x, y)
  }

  // ---------------------------------------------------------------------
  // The YV12 gray pointer as written

  /** Byte `k` of the linear index space `y * w + x` that a `w`-wide gray
      grid uses lies in a plane whose rows are `pitch >= w` bytes apart:
      its row is `k / pitch`, below `h`. */
  lemma LinearInPlane(y: int, x: int, w: int, h: int, pitch: int)
    requires 0 <= y < h && 0 <= x < w <= pitch
    ensures 0 <= (y * w + x) / pitch < h && 0 <= (y * w + x) % pitch < pitch
  {
    var k := y * w + x;
    ProductMono(y + 1, w, h, pitch);
    assert 0 <= k < h * pitch by {
      assert (y + 1) * w == y * w + w;
      assert 0 <= y * w;
    }
    var q := k / pitch;
    if q >= h {
      ProductMono(h, pitch, q, pitch);
    }
  }

  /** For YV12 the source points the gray grid at the luma plane itself
      and reads the gray of `(x, y)` at the packed index `y * w + x`, while
      the rows of that plane are `pitch` bytes apart: the gray it sees is
      the byte at row `(y * w + x) / pitch`, column `(y * w + x) % pitch`. */
  function AliasedByte(luma: Plane<byte>, pitch: int, w: int, h: int, x: int, y: int): byte
    requires 0 <= y < h && 0 <= x < w <= pitch && Covers(luma, pitch, h)
  {
    LinearInPlane(y, x, w, h, pitch);
    luma[(y * w + x) / pitch][(y * w + x) % pitch]
  }

  /** The whole gray grid as the YV12 path reads it. */
  function AliasedGray(luma: Plane<byte>, pitch: int, w: int, h: int): (g: Plane<byte>)
    requires 0 < w <= pitch && 0 <= h && Covers(luma, pitch, h)
    ensures IsGrid(g, w, h)
    ensures forall y, x :: 0 <= y < h && 0 <= x < w ==> g[y][x] == AliasedByte(luma, pitch, w, h, x, y)
  {
    seq(h, y requires 0 <= y < h => seq(w, x requires 0 <= x < w => AliasedByte(luma, pitch, w, h, x, y)))
  }

  /** The packed index `y * w + x` of a `w`-wide row-major grid splits
      back into row `y` and column `x`. */
  lemma PackedIndex(y: int, x: int, w: int)
    requires 0 <= y && 0 <= x < w
    ensures (y * w + x) / w == y && (y * w + x) % w == x
  {
    var k := y * w + x;
    var q, r := k / w, k % w;
    assert k == q * w + r && 0 <= r < w;
    if q > y {
      ProductMono(y + 1, w, q, w);
    } else if q < y {
      ProductMono(q + 1, w, y, w);
    }
  }

  /** When the luma rows are packed (the pitch is the width) the aliased
      gray is the luma plane, as the design expects. */
  lemma AliasedGrayPacked(luma: Plane<byte>, w: int, h: int)
    requires 0 < w && 0 <= h && Covers(luma, w, h)
    ensures forall y, x :: 0 <= y < h && 0 <= x < w ==> AliasedGray(luma, w, w, h)[y][x] == luma[y][x]
  {
    forall y, x | 0 <= y < h && 0 <= x < w
      ensures AliasedGray(luma, w, w, h)[y][x] == luma[y][x]
    {
      PackedIndex(y, x, w);
    }
  }

  /** When the pitch exceeds the width the aliased gray reads the wrong
      row: with rows of 4 bytes and a frame 2 pixels wide, the gray of
      `(0, 1)` is byte 2 of row 0 (7), not the luma of `(0, 1)` (9). */
  lemma AliasedGrayMisreadsRows()
    ensures var fr := Frame([[0, 0, 7, 0], [9, 0, 0, 0]], [[0]], [[0]]);
      FrameOk(YV12, fr, 2, 2) &&
      AliasedGray(fr.main, 4, 2, 2)[1][0] == 7 && Luma(YV12, fr, 2, 2, 0, 1) == 9
  {
    var fr := Frame([[0, 0, 7, 0], [9, 0, 0, 0]], [[0]], [[0]]);
    assert (1 * 2 + 0) / 4 == 0 && (1 * 2 + 0) % 4 == 2;
    assert fr.main[0][2] == 7;
  }

  /** Little-endian value of four bytes. */
  function Word(b0: byte, b1: byte, b2: byte, b3: byte): int
  {
    b0 as int + 256 * b1 as int + 65536 * b2 as int + 16777216 * b3 as int
  }

  /** The value a mask pixel is compared with `maskcolor`: the 32-bit word
      with its alpha byte cleared for RGB32, `b | g << 8 | r << 16` for RGB24,
      `v | u << 8 | y << 16` for YV12 and YUV24. Not used by RGBA. */
  function MaskKey(f: EngineFormat, mask: Frame, w: int, h: int, x: int, y: int): int
    requires f != RGBA && FrameOk(f, mask, w, h) && InFrame(x, y, w, h)
  {
    var row := mask.main[y];
    if f == RGB32 then
      Word(row[4 * x], row[4 * x + 1], row[4 * x + 2], row[4 * x + 3]) % 0x100_0000
    else if f == RGB24 then
      row[3 * x] as int + 256 * row[3 * x + 1] as int + 65536 * row[3 * x + 2] as int
    else if f == YV12 then
      mask.v[y / 2][x / 2] as int + 256 * mask.u[y / 2][x / 2] as int + 65536 * row[x] as int
    else
      row[3 * x + 2] as int + 256 * row[3 * x + 1] as int + 65536 * row[3 * x] as int
  }

  /** The mask buffers are large enough: for RGBA there is none, the mask is
      the alpha channel of the source. */
  ghost predicate MaskOk(f: EngineFormat, mask: Frame, w: int, h: int)
  {
    f == RGBA || FrameOk(f, mask, w, h)
  }

  /** Pixel `(x, y)` is to be inpainted: its alpha exceeds 127 (RGBA), or its
      mask key equals `maskcolor`. */
  predicate IsMasked(f: EngineFormat, src: Frame, mask: Frame, maskcolor: int, w: int, h: int, x: int, y: int)
    requires FrameOk(f, src, w, h) && MaskOk(f, mask, w, h) && InFrame(x, y, w, h)
  {
    if f == RGBA then src.main[y][4 * x + 3] > 127
    else MaskKey(f, mask, w, h, x, y) == maskcolor
  }

  /** Clearing the alpha byte of an RGB32 mask word leaves exactly the
      blue, green and red bytes: the key never depends on alpha. */
  lemma RgbKeyIgnoresAlpha(f: EngineFormat, mask: Frame, w: int, h: int, x: int, y: int)
    requires f == RGB32 && FrameOk(f, mask, w, h) && InFrame(x, y, w, h)
    ensures var row := mask.main[y];
      MaskKey(f, mask, w, h, x, y) == row[4 * x] as int + 256 * row[4 * x + 1] as int + 65536 * row[4 * x + 2] as int
  {
    var row := mask.main[y];
    var low := row[4 * x] as int + 256 * row[4 * x + 1] as int + 65536 * row[4 * x + 2] as int;
    assert 0 <= low < 0x100_0000;
    assert Word(row[4 * x], row[4 * x + 1], row[4 * x + 2], row[4 * x + 3]) == low + 0x100_0000 * row[4 * x + 3] as int;
  }
}
