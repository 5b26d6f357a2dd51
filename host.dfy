/** The host side of the filter: which layout the engine gets for a clip
    and its mask, and the repacking of YUY2 frames (4:2:2, two pixels in
    the four bytes Y1 U Y2 V) into the engine's YUV24 layout (4:4:4, three
    bytes Y U V per pixel) and back. Frames and buffers are arrays whose
    second dimension is the pitch, the distance in bytes between rows. */
module Host {
  import opened Grid
  import opened Defs

  /** The pixel pairs per row that the converters visit for a YUY2 row of
      `rowSize` bytes: one per even pixel column below `rowSize / 2`. */
  function Pairs(rowSize: int): nat
  {
    if rowSize <= 0 then 0 else (rowSize / 2 + 1) / 2
  }

  /** The converters' loop over `w = 0, 2, 4, ...` while `w < rowSize / 2`
      visits exactly the pairs `[0, Pairs(rowSize))`. */
  lemma PairsVisited(rowSize: int, k: int)
    requires 0 <= k
    ensures 2 * k < rowSize / 2 <==> k < Pairs(rowSize)
  {
  }

  lemma DivMod6(q: int, r: int)
    requires 0 <= r < 6
    ensures (6 * q + r) / 6 == q && (6 * q + r) % 6 == r
  {
  }

  lemma DivMod4(q: int, r: int)
    requires 0 <= r < 4
    ensures (4 * q + r) / 4 == q && (4 * q + r) % 4 == r
  {
  }

  /** Byte `i` of the YUV24 row repacked from the YUY2 row `s`: pixel
      pair `i / 6` spreads its bytes Y1 U Y2 V over Y1 U V Y2 U V, so both
      pixels of the pair carry the pair's chroma. */
  function Yuv24Byte(s: seq<byte>, i: nat): byte
    requires 4 * (i / 6) + 3 < |s|
  {
    var q, r := 4 * (i / 6), i % 6;
    if r == 0 then s[q]
    else if r == 3 then s[q + 2]
    else if r == 1 || r == 4 then s[q + 1]
    else s[q + 3]
  }

  /** Byte `i` of the YUY2 row packed from the YUV24 row `t`: pair `i / 4`
      takes both lumas of its two pixels and the chroma of the first. */
  function Yuy2Byte(t: seq<byte>, i: nat): byte
    requires 6 * (i / 4) + 3 < |t|
  {
    var q, r := 6 * (i / 4), i % 4;
    if r == 0 then t[q]
    else if r == 1 then t[q + 1]
    else if r == 2 then t[q + 3]
    else t[q + 2]
  }

  /** The buffer `t0` once the first `height` rows of the YUY2 picture `s`
      are repacked into it: bytes `[0, 6 * Pairs(rowSize))` of those rows
      are the repacked pixels, every other byte keeps its value. */
  function ToYuv24(s: Plane<byte>, rowSize: int, height: int, t0: Plane<byte>): (t: Plane<byte>)
    requires 0 <= height && Covers(s, 4 * Pairs(rowSize), height) && Covers(t0, 6 * Pairs(rowSize), height)
    ensures |t| == |t0| && forall y :: 0 <= y < |t| ==> |t[y]| == |t0[y]|
    ensures forall y, i :: 0 <= y < |t0| && 0 <= i < |t0[y]| && (y >= height || i >= 6 * Pairs(rowSize)) ==> t[y][i] == t0[y][i]
  {
    seq(|t0|, y requires 0 <= y < |t0| =>
      seq(|t0[y]|, i requires 0 <= i < |t0[y]| =>
        if y < height && i < 6 * Pairs(rowSize) then Yuv24Byte(s[y], i) else t0[y][i]))
  }

  /** The frame `d0` once the first `height` rows of the YUV24 buffer `t`
      are packed into it: bytes `[0, 4 * Pairs(rowSize))` of those rows are
      the packed pixels, every other byte keeps its value. */
  function ToYuy2(d0: Plane<byte>, t: Plane<byte>, rowSize: int, height: int): (d: Plane<byte>)
    requires 0 <= height && Covers(d0, 4 * Pairs(rowSize), height) && Covers(t, 6 * Pairs(rowSize), height)
    ensures |d| == |d0| && forall y :: 0 <= y < |d| ==> |d[y]| == |d0[y]|
    ensures forall y, i :: 0 <= y < |d0| && 0 <= i < |d0[y]| && (y >= height || i >= 4 * Pairs(rowSize)) ==> d[y][i] == d0[y][i]
  {
    seq(|d0|, y requires 0 <= y < |d0| =>
      seq(|d0[y]|, i requires 0 <= i < |d0[y]| =>
        if y < height && i < 4 * Pairs(rowSize) then Yuy2Byte(t[y], i) else d0[y][i]))
  }

  /** Packing a repacked YUY2 picture gives back its bytes: the round trip
      of a frame through the engine's layout loses nothing. */
  lemma RoundTrip(s: Plane<byte>, rowSize: int, height: int, t0: Plane<byte>, d0: Plane<byte>)
    requires 0 <= height && Covers(s, 4 * Pairs(rowSize), height) && Covers(t0, 6 * Pairs(rowSize), height)
    requires Covers(d0, 4 * Pairs(rowSize), height)
    ensures var d := ToYuy2(d0, ToYuv24(s, rowSize, height, t0), rowSize, height);
      forall y, i :: 0 <= y < height && 0 <= i < 4 * Pairs(rowSize) ==> d[y][i] == s[y][i]
  {
    var t := ToYuv24(s, rowSize, height, t0);
    var d := ToYuy2(d0, t, rowSize, height);
    forall y, i | 0 <= y < height && 0 <= i < 4 * Pairs(rowSize)
      ensures d[y][i] == s[y][i]
    {
      var k, r := i / 4, i % 4;
      var r6 := if r == 2 then 3 else if r == 3 then 2 else r;
      DivMod6(k, r6);
      assert d[y][i] == t[y][6 * k + r6];
    }
  }

  /** Byte `i` of a repacked YUV24 row of a packed buffer comes from this
      byte of the buffer: the second pixel of a pair takes the chroma of
      the first. */
  function SharedFrom(i: nat): (j: nat)
    ensures j <= i
  {
    if i % 6 < 4 then i else i - 3
  }

  /** Repacking a packed YUV24 buffer gives it back except that the second
      pixel of each pair takes the chroma of the first: 4:2:2 keeps one
      chroma sample per pair. */
  lemma ChromaShared(t: Plane<byte>, rowSize: int, height: int, d0: Plane<byte>, t0: Plane<byte>)
    requires 0 <= height && Covers(t, 6 * Pairs(rowSize), height) && Covers(d0, 4 * Pairs(rowSize), height)
    requires Covers(t0, 6 * Pairs(rowSize), height)
    ensures var t2 := ToYuv24(ToYuy2(d0, t, rowSize, height), rowSize, height, t0);
      forall y, i :: 0 <= y < height && 0 <= i < 6 * Pairs(rowSize) ==>
        t2[y][i] == t[y][SharedFrom(i)]
  {
    var d := ToYuy2(d0, t, rowSize, height);
    var t2 := ToYuv24(d, rowSize, height, t0);
    forall y, i | 0 <= y < height && 0 <= i < 6 * Pairs(rowSize)
      ensures t2[y][i] == t[y][SharedFrom(i)]
    {
      var k := i / 6;
      assert 6 * k <= i < 6 * k + 6 && k < Pairs(rowSize);
      ChromaByte(t[y], d[y], i);
      assert t2[y][i] == Yuv24Byte(d[y], i);
    }
  }

  /** Byte `i` of a row repacked from a packed row `d` of `t`. */
  lemma ChromaByte(t: seq<byte>, d: seq<byte>, i: int)
    requires 0 <= i && 6 * (i / 6) + 5 < |t| && 4 * (i / 6) + 3 < |d|
    requires forall j :: 4 * (i / 6) <= j < 4 * (i / 6) + 4 ==> d[j] == Yuy2Byte(t, j)
    ensures Yuv24Byte(d, i) == t[SharedFrom(i)]
  {
    var k := i / 6;
    PairPacked(t, k);
    assert d[4 * k] == t[6 * k] && d[4 * k + 1] == t[6 * k + 1];
    assert d[4 * k + 2] == t[6 * k + 3] && d[4 * k + 3] == t[6 * k + 2];
  }

  /** `convertYUY2toYUV24`: repacks the first `height` rows of the YUY2
      frame `src` into the YUV24 buffer `buf`, row by row. */
  method Yuy2ToYuv24(src: array2<byte>, rowSize: int, height: int, buf: array2<byte>)
    requires src != buf && 0 <= height <= src.Length0 && height <= buf.Length0
    requires 4 * Pairs(rowSize) <= src.Length1 && 6 * Pairs(rowSize) <= buf.Length1
    modifies buf
    ensures View(buf) == ToYuv24(View(src), rowSize, height, old(View(buf)))
  {
    ghost var s, t0 := View(src), View(buf);
    for h := 0 to height
      invariant forall y, i :: 0 <= y < buf.Length0 && 0 <= i < buf.Length1 ==>
        buf[y, i] == if y < h && i < 6 * Pairs(rowSize) then Yuv24Byte(s[y], i) else t0[y][i]
    {
      ExpandRow(src, rowSize, h, buf);
    }
    PlaneEq(View(buf), ToYuv24(s, rowSize, height, t0), buf.Length1, buf.Length0);
  }

  /** One row of `convertYUY2toYUV24`: the pairs of row `h` of `src`,
      left to right, into row `h` of `buf`. */
  method ExpandRow(src: array2<byte>, rowSize: int, h: int, buf: array2<byte>)
    requires src != buf && 0 <= h < src.Length0 && h < buf.Length0
    requires 4 * Pairs(rowSize) <= src.Length1 && 6 * Pairs(rowSize) <= buf.Length1
    modifies buf
    ensures forall y, i :: 0 <= y < buf.Length0 && 0 <= i < buf.Length1 ==>
      buf[y, i] == if y == h && i < 6 * Pairs(rowSize) then Yuv24Byte(View(src)[h], i) else old(buf[y, i])
  {
    ghost var s := View(src)[h];
    var w := 0;
    ghost var k := 0;
    while w < rowSize / 2
      invariant w == 2 * k && 0 <= k <= Pairs(rowSize)
      invariant forall y, i :: 0 <= y < buf.Length0 && y != h && 0 <= i < buf.Length1 ==> buf[y, i] == old(buf[y, i])
      invariant forall i :: 0 <= i < buf.Length1 ==> buf[h, i] == if i < 6 * k then Yuv24Byte(s, i) else old(buf[h, i])
    {
      PairsVisited(rowSize, k);
      var w2, w3 := w * 2, w * 3;
      var y1, u, y2, v := src[h, w2], src[h, w2 + 1], src[h, w2 + 2], src[h, w2 + 3];
      StoreYuv24(buf, h, w3, y1, u, y2, v, s, k);
      w, k := w + 2, k + 1;
    }
    PairsVisited(rowSize, k);
  }

  /** The six bytes of pair `k` of row `h` of a YUV24 buffer: pixel
      `(Y1, U, V)` then pixel `(Y2, U, V)`. */
  method StoreYuv24(buf: array2<byte>, h: int, w3: int, y1: byte, u: byte, y2: byte, v: byte, ghost s: seq<byte>, ghost k: int)
    requires 0 <= h < buf.Length0 && 0 <= k && w3 == 6 * k && w3 + 6 <= buf.Length1 && 4 * k + 3 < |s|
    requires s[4 * k] == y1 && s[4 * k + 1] == u && s[4 * k + 2] == y2 && s[4 * k + 3] == v
    modifies buf
    ensures forall y, i :: 0 <= y < buf.Length0 && y != h && 0 <= i < buf.Length1 ==> buf[y, i] == old(buf[y, i])
    ensures forall i :: 0 <= i < buf.Length1 ==> buf[h, i] == if w3 <= i < w3 + 6 then Yuv24Byte(s, i) else old(buf[h, i])
  {
    PairExpanded(s, k);
    buf[h, w3], buf[h, w3 + 1], buf[h, w3 + 2] := y1, u, v;
    buf[h, w3 + 3], buf[h, w3 + 4], buf[h, w3 + 5] := y2, u, v;
  }

  /** The six bytes of pair `k` of a repacked row. */
  lemma PairExpanded(s: seq<byte>, k: int)
    requires 0 <= k && 4 * k + 3 < |s|
    ensures Yuv24Byte(s, 6 * k) == s[4 * k] && Yuv24Byte(s, 6 * k + 1) == s[4 * k + 1]
    ensures Yuv24Byte(s, 6 * k + 2) == s[4 * k + 3] && Yuv24Byte(s, 6 * k + 3) == s[4 * k + 2]
    ensures Yuv24Byte(s, 6 * k + 4) == s[4 * k + 1] && Yuv24Byte(s, 6 * k + 5) == s[4 * k + 3]
  {
    DivMod6(k, 0); DivMod6(k, 1); DivMod6(k, 2);
    DivMod6(k, 3); DivMod6(k, 4); DivMod6(k, 5);
  }

  /** `convertYUV24toYUY2`: packs the first `height` rows of the YUV24
      buffer `buf` into the YUY2 frame `dst`, row by row. */
  method Yuv24ToYuy2(dst: array2<byte>, rowSize: int, height: int, buf: array2<byte>)
    requires dst != buf && 0 <= height <= dst.Length0 && height <= buf.Length0
    requires 4 * Pairs(rowSize) <= dst.Length1 && 6 * Pairs(rowSize) <= buf.Length1
    modifies dst
    ensures View(dst) == ToYuy2(old(View(dst)), View(buf), rowSize, height)
  {
    ghost var t, d0 := View(buf), View(dst);
    for h := 0 to height
      invariant forall y, i :: 0 <= y < dst.Length0 && 0 <= i < dst.Length1 ==>
        dst[y, i] == if y < h && i < 4 * Pairs(rowSize) then Yuy2Byte(t[y], i) else d0[y][i]
    {
      PackRow(dst, rowSize, h, buf);
    }
    PlaneEq(View(dst), ToYuy2(d0, t, rowSize, height), dst.Length1, dst.Length0);
  }

  /** One row of `convertYUV24toYUY2`: the pairs of row `h` of `buf`,
      left to right, into row `h` of `dst`. */
  method PackRow(dst: array2<byte>, rowSize: int, h: int, buf: array2<byte>)
    requires dst != buf && 0 <= h < dst.Length0 && h < buf.Length0
    requires 4 * Pairs(rowSize) <= dst.Length1 && 6 * Pairs(rowSize) <= buf.Length1
    modifies dst
    ensures forall y, i :: 0 <= y < dst.Length0 && 0 <= i < dst.Length1 ==>
      dst[y, i] == if y == h && i < 4 * Pairs(rowSize) then Yuy2Byte(View(buf)[h], i) else old(dst[y, i])
  {
    ghost var t := View(buf)[h];
    var w := 0;
    ghost var k := 0;
    while w < rowSize / 2
      invariant w == 2 * k && 0 <= k <= Pairs(rowSize)
      invariant forall y, i :: 0 <= y < dst.Length0 && y != h && 0 <= i < dst.Length1 ==> dst[y, i] == old(dst[y, i])
      invariant forall i :: 0 <= i < dst.Length1 ==> dst[h, i] == if i < 4 * k then Yuy2Byte(t, i) else old(dst[h, i])
    {
      PairsVisited(rowSize, k);
      var w2, w3 := w * 2, w * 3;
      var y1, u, v, y2 := buf[h, w3], buf[h, w3 + 1], buf[h, w3 + 2], buf[h, w3 + 3];
      StoreYuy2(dst, h, w2, y1, u, y2, v, t, k);
      w, k := w + 2, k + 1;
    }
    PairsVisited(rowSize, k);
  }

  /** The four bytes of pair `k` of row `h` of a YUY2 frame: `Y1 U Y2 V`. */
  method StoreYuy2(dst: array2<byte>, h: int, w2: int, y1: byte, u: byte, y2: byte, v: byte, ghost t: seq<byte>, ghost k: int)
    requires 0 <= h < dst.Length0 && 0 <= k && w2 == 4 * k && w2 + 4 <= dst.Length1 && 6 * k + 3 < |t|
    requires t[6 * k] == y1 && t[6 * k + 1] == u && t[6 * k + 2] == v && t[6 * k + 3] == y2
    modifies dst
    ensures forall y, i :: 0 <= y < dst.Length0 && y != h && 0 <= i < dst.Length1 ==> dst[y, i] == old(dst[y, i])
    ensures forall i :: 0 <= i < dst.Length1 ==> dst[h, i] == if w2 <= i < w2 + 4 then Yuy2Byte(t, i) else old(dst[h, i])
  {
    PairPacked(t, k);
    dst[h, w2], dst[h, w2 + 1], dst[h, w2 + 2], dst[h, w2 + 3] := y1, u, y2, v;
  }

  /** The four bytes of pair `k` of a packed row. */
  lemma PairPacked(t: seq<byte>, k: int)
    requires 0 <= k && 6 * k + 3 < |t|
    ensures Yuy2Byte(t, 4 * k) == t[6 * k] && Yuy2Byte(t, 4 * k + 1) == t[6 * k + 1]
    ensures Yuy2Byte(t, 4 * k + 2) == t[6 * k + 3] && Yuy2Byte(t, 4 * k + 3) == t[6 * k + 2]
  {
    DivMod4(k, 0); DivMod4(k, 1); DivMod4(k, 2); DivMod4(k, 3);
  }

  datatype Option<T> = None | Some(value: T)

  /** The pixel types a clip may report. */
  datatype ClipType = ClipRGB32 | ClipRGB24 | ClipYV12 | ClipYUY2 | ClipOther

  /** What the filter learns about a clip: its pixel type and size. */
  datatype Clip = Clip(kind: ClipType, width: int, height: int)

  /** The reasons the filter refuses its clips. */
  datatype SetupError =
    | NeedsRGB32            // no mask clip and the video is not RGB32
    | UnsupportedType       // the video is none of RGB32, RGB24, YV12, YUY2
    | MaskSizeDiffers(maskWidth: int, maskHeight: int)
    | MaskTypeDiffers

  /** The engine's layout for the clip, and for YUY2 video the pitch of the
      YUV24 buffers the frames are repacked into. */
  datatype Choice = Choice(format: EngineFormat, bufferPitch: Option<int>)

  datatype Result<T> = Ok(value: T) | Err(error: SetupError)

  /** The pitch of a YUV24 buffer for rows of `width` pixels: the width
      rounded up to a multiple of 4, three bytes per pixel. */
  function BufferPitch(width: int): int
  {
    (width + 3) / 4 * 4 * 3
  }

  /** The checks of the filter's constructor. Without a mask clip the video
      must be RGB32 and its alpha channel is the mask. With one, the video
      must be RGB32, RGB24, YV12 or YUY2 (YUY2 is handed to the engine as
      YUV24), and the mask must have the video's size and then its type. */
  function ChooseFormat(video: Clip, mask: Option<Clip>): (r: Result<Choice>)
    ensures r.Ok? <==>
      (mask.None? && video.kind == ClipRGB32) ||
      (mask.Some? && video.kind != ClipOther && mask.value.width == video.width &&
       mask.value.height == video.height && mask.value.kind == video.kind)
    ensures r.Ok? ==> (r.value.format == RGBA <==> mask.None?)
    ensures r.Ok? ==> (r.value.format == YUV24 <==> video.kind == ClipYUY2)
    ensures r.Ok? ==> (r.value.bufferPitch.Some? <==> video.kind == ClipYUY2)
    ensures r.Ok? && r.value.bufferPitch.Some? ==> r.value.bufferPitch.value == BufferPitch(video.width)
    ensures mask.Some? && video.kind == ClipOther ==> r == Err(UnsupportedType)
  {
    match mask
    case None =>
      if video.kind == ClipRGB32 then Ok(Choice(RGBA, None)) else Err(NeedsRGB32)
    case Some(m) =>
      var c :=
        match video.kind
        case ClipRGB32 => Ok(Choice(RGB32, None))
        case ClipRGB24 => Ok(Choice(RGB24, None))
        case ClipYV12 => Ok(Choice(YV12, None))
        case ClipYUY2 => Ok(Choice(YUV24, Some(BufferPitch(video.width))))
        case ClipOther => Err(UnsupportedType);
      if c.Err? then c
      else if video.width != m.width || video.height != m.height then Err(MaskSizeDiffers(m.width, m.height))
      else if video.kind != m.kind then Err(MaskTypeDiffers)
      else c
  }

  /** The buffer pitch the constructor picks for YUY2 video holds a whole
      repacked row (`rowSize` of a YUY2 row of `width` pixels is `2 * width`),
      and keeps rows aligned to 4 pixels. */
  lemma BufferHoldsRow(width: int)
    requires 0 <= width
    ensures 6 * Pairs(2 * width) <= BufferPitch(width)
    ensures BufferPitch(width) % 12 == 0 && BufferPitch(width) < 3 * width + 12
  {
    var q := (width + 3) / 4;
    assert 4 * q <= width + 3 < 4 * q + 4;
    assert BufferPitch(width) == 12 * q;
    if width > 0 {
      assert (2 * width) / 2 == width;
      var p := (width + 1) / 2;
      assert Pairs(2 * width) == p && 2 * p <= width + 1;
    }
  }
}
