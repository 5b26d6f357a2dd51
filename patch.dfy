/** What one fill step does to the engine grids and to the picture: every
    cell of the clipped target window that is not yet SOURCE takes the mark
    SOURCE, the new confidence, and the gray value and pixel bytes of the
    cell at the same offset in the donor window. */
module Patch {
  import opened Grid
  import opened Defs
  import opened Pixels
  import opened Priority
  import Search
  import Frontier

  /** Cell `(x, y)` is filled by the patch centred at `(tx, ty)`: it lies in
      the clipped window and is not SOURCE yet. */
  predicate Fills(mark: Plane<byte>, w: int, h: int, wx: int, wy: int, tx: int, ty: int, x: int, y: int)
    requires IsGrid(mark, w, h) && InFrame(x, y, w, h)
  {
    Window(tx, ty, wx, wy, w, h).Contains(x, y) && mark[y][x] != SOURCE
  }

  /** The engine grids after the fill of the window of `(tx, ty)` from the
      donor window of `(sx, sy)` with confidence `conf`. */
  ghost predicate PatchedLayers(l0: Layers, l1: Layers, wx: int, wy: int, tx: int, ty: int, sx: int, sy: int, conf: int)
  {
    LayersOk(l0) && LayersOk(l1) && l1.w == l0.w && l1.h == l0.h &&
    Search.WindowInFrame(l0.w, l0.h, wx, wy, sx, sy) &&
    (forall y, x :: 0 <= y < l0.h && 0 <= x < l0.w && Fills(l0.mark, l0.w, l0.h, wx, wy, tx, ty, x, y) ==>
       l1.mark[y][x] == SOURCE && l1.confid[y][x] == conf && l1.gray[y][x] == l0.gray[sy + y - ty][sx + x - tx]) &&
    (forall y, x :: 0 <= y < l0.h && 0 <= x < l0.w && !Fills(l0.mark, l0.w, l0.h, wx, wy, tx, ty, x, y) ==>
       l1.mark[y][x] == l0.mark[y][x] && l1.confid[y][x] == l0.confid[y][x] && l1.gray[y][x] == l0.gray[y][x])
  }

  /** Chroma sample `(cx, cy)` of a YV12 picture is shared with a filled cell. */
  predicate ChromaTouched(mark: Plane<byte>, w: int, h: int, wx: int, wy: int, tx: int, ty: int, cx: int, cy: int)
    requires IsGrid(mark, w, h)
  {
    (InFrame(2 * cx, 2 * cy, w, h) && Fills(mark, w, h, wx, wy, tx, ty, 2 * cx, 2 * cy)) ||
    (InFrame(2 * cx + 1, 2 * cy, w, h) && Fills(mark, w, h, wx, wy, tx, ty, 2 * cx + 1, 2 * cy)) ||
    (InFrame(2 * cx, 2 * cy + 1, w, h) && Fills(mark, w, h, wx, wy, tx, ty, 2 * cx, 2 * cy + 1)) ||
    (InFrame(2 * cx + 1, 2 * cy + 1, w, h) && Fills(mark, w, h, wx, wy, tx, ty, 2 * cx + 1, 2 * cy + 1))
  }

  /** Two planes of the same shape. */
  ghost predicate SameShape(a: Plane<byte>, b: Plane<byte>)
  {
    |a| == |b| && forall y :: 0 <= y < |a| ==> |a[y]| == |b[y]|
  }

  /** The scan of the clipped window `b` can stand at `(ci, cj)` while its
      cells take the chroma samples of the cells `(ox, oy)` away in the chroma
      plane `c0` of a `w` by `h` YV12 picture: the donor window lies in the
      frame, and `(b.x0, b.y1)` is the end of the scan. */
  ghost predicate ChromaFillOk(c0: Plane<byte>, mark: Plane<byte>, w: int, h: int, b: Box, ox: int, oy: int, cj: int, ci: int)
  {
    IsGrid(mark, w, h) && b.Within(w, h) && Covers(c0, (w + 1) / 2, (h + 1) / 2) &&
    0 <= b.x0 + ox && b.x1 + ox <= w && 0 <= b.y0 + oy && b.y1 + oy <= h &&
    b.y0 <= cj <= b.y1 && b.x0 <= ci <= b.x1 && (cj == b.y1 ==> ci == b.x0)
  }

  /** The chroma plane `c0` once the scan of `b` reached `(ci, cj)`: each
      cell of `b` before it in row-major order that is not SOURCE in `mark`,
      in turn, wrote onto its own sample `(x / 2, y / 2)` the sample of its
      donor cell as the plane held it at that moment, so a sample shared by
      several cells holds what the last of them wrote, and a donor sample
      written earlier in the scan passes on its new value. */
  ghost function ChromaFill(c0: Plane<byte>, mark: Plane<byte>, w: int, h: int, b: Box, ox: int, oy: int, cj: int, ci: int): (c: Plane<byte>)
    requires ChromaFillOk(c0, mark, w, h, b, ox, oy, cj, ci)
    ensures SameShape(c0, c)
    decreases cj - b.y0, ci - b.x0
  {
    if ci > b.x0 then
      var p := ChromaFill(c0, mark, w, h, b, ox, oy, cj, ci - 1);
      var x, y := ci - 1, cj;
      if mark[y][x] != SOURCE then p[y / 2 := p[y / 2][x / 2 := p[(y + oy) / 2][(x + ox) / 2]]] else p
    else if cj > b.y0 then ChromaFill(c0, mark, w, h, b, ox, oy, cj - 1, b.x1)
    else c0
  }

  /** One step of the scan of `b`, at the cell `(ci, cj)`. */
  lemma ChromaFillStep(c0: Plane<byte>, mark: Plane<byte>, w: int, h: int, b: Box, ox: int, oy: int, cj: int, ci: int)
    requires ChromaFillOk(c0, mark, w, h, b, ox, oy, cj, ci) && b.Contains(ci, cj)
    ensures ChromaFillOk(c0, mark, w, h, b, ox, oy, cj, ci + 1)
    ensures var p := ChromaFill(c0, mark, w, h, b, ox, oy, cj, ci);
      ChromaFill(c0, mark, w, h, b, ox, oy, cj, ci + 1) ==
      if mark[cj][ci] != SOURCE then p[cj / 2 := p[cj / 2][ci / 2 := p[(cj + oy) / 2][(ci + ox) / 2]]] else p
  {
  }

  /** The end of row `cj` of the scan of `b` is the start of row `cj + 1`. */
  lemma ChromaFillRowEnd(c0: Plane<byte>, mark: Plane<byte>, w: int, h: int, b: Box, ox: int, oy: int, cj: int)
    requires ChromaFillOk(c0, mark, w, h, b, ox, oy, cj, b.x1) && cj < b.y1
    ensures ChromaFillOk(c0, mark, w, h, b, ox, oy, cj + 1, b.x0)
    ensures ChromaFill(c0, mark, w, h, b, ox, oy, cj + 1, b.x0) == ChromaFill(c0, mark, w, h, b, ox, oy, cj, b.x1)
  {
  }

  /** A sample that no cell written between the scan positions `(i1, j1)`
      and `(ci, cj)` shares holds the same value at both. */
  lemma {:induction false} ChromaFillKeeps(c0: Plane<byte>, mark: Plane<byte>, w: int, h: int, b: Box, ox: int, oy: int,
                                           j1: int, i1: int, cj: int, ci: int, cx: int, cy: int)
    requires ChromaFillOk(c0, mark, w, h, b, ox, oy, j1, i1) && ChromaFillOk(c0, mark, w, h, b, ox, oy, cj, ci)
    requires !Before(ci, cj, i1, j1) && 0 <= cy < |c0| && 0 <= cx < |c0[cy]|
    requires forall y, x :: b.Contains(x, y) && mark[y][x] != SOURCE && !Before(x, y, i1, j1) && Before(x, y, ci, cj) ==>
      x / 2 != cx || y / 2 != cy
    ensures ChromaFill(c0, mark, w, h, b, ox, oy, cj, ci)[cy][cx] == ChromaFill(c0, mark, w, h, b, ox, oy, j1, i1)[cy][cx]
    decreases cj - b.y0, ci - b.x0
  {
    if (cj, ci) != (j1, i1) {
      if ci > b.x0 {
        ChromaFillKeeps(c0, mark, w, h, b, ox, oy, j1, i1, cj, ci - 1, cx, cy);
        assert b.Contains(ci - 1, cj) && !Before(ci - 1, cj, i1, j1) && Before(ci - 1, cj, ci, cj);
        ChromaFillSkips(c0, mark, w, h, b, ox, oy, cj, ci - 1, cx, cy);
      } else if cj > b.y0 {
        ChromaFillKeeps(c0, mark, w, h, b, ox, oy, j1, i1, cj - 1, b.x1, cx, cy);
      }
    }
  }

  /** The step at the cell `(ci, cj)` leaves alone a sample that the cell
      does not share, or every sample when the cell is SOURCE. */
  lemma ChromaFillSkips(c0: Plane<byte>, mark: Plane<byte>, w: int, h: int, b: Box, ox: int, oy: int,
                        cj: int, ci: int, cx: int, cy: int)
    requires ChromaFillOk(c0, mark, w, h, b, ox, oy, cj, ci) && b.Contains(ci, cj) && 0 <= cy < |c0| && 0 <= cx < |c0[cy]|
    requires mark[cj][ci] != SOURCE ==> ci / 2 != cx || cj / 2 != cy
    ensures ChromaFillOk(c0, mark, w, h, b, ox, oy, cj, ci + 1)
    ensures ChromaFill(c0, mark, w, h, b, ox, oy, cj, ci + 1)[cy][cx] == ChromaFill(c0, mark, w, h, b, ox, oy, cj, ci)[cy][cx]
  {
    ChromaFillStep(c0, mark, w, h, b, ox, oy, cj, ci);
  }

  /** A sample that no cell of `b` written before `(ci, cj)` shares holds
      its value in `c0`. */
  lemma ChromaFillUntouched(c0: Plane<byte>, mark: Plane<byte>, w: int, h: int, b: Box, ox: int, oy: int,
                            cj: int, ci: int, cx: int, cy: int)
    requires ChromaFillOk(c0, mark, w, h, b, ox, oy, cj, ci) && 0 <= cy < |c0| && 0 <= cx < |c0[cy]|
    requires forall y, x :: b.Contains(x, y) && mark[y][x] != SOURCE && Before(x, y, ci, cj) ==> x / 2 != cx || y / 2 != cy
    ensures ChromaFill(c0, mark, w, h, b, ox, oy, cj, ci)[cy][cx] == c0[cy][cx]
  {
    ChromaFillKeeps(c0, mark, w, h, b, ox, oy, b.y0, b.x0, cj, ci, cx, cy);
  }

  /** The sample of a written cell `(x, y)` that no later cell written
      before `(ci, cj)` shares holds the donor sample as the plane held it
      when the scan reached `(x, y)`. */
  lemma ChromaFillLastWriter(c0: Plane<byte>, mark: Plane<byte>, w: int, h: int, b: Box, ox: int, oy: int,
                             cj: int, ci: int, x: int, y: int)
    requires ChromaFillOk(c0, mark, w, h, b, ox, oy, cj, ci)
    requires b.Contains(x, y) && mark[y][x] != SOURCE && Before(x, y, ci, cj)
    requires forall y2, x2 :: b.Contains(x2, y2) && mark[y2][x2] != SOURCE && Before(x, y, x2, y2) && Before(x2, y2, ci, cj) ==>
      x2 / 2 != x / 2 || y2 / 2 != y / 2
    ensures ChromaFillOk(c0, mark, w, h, b, ox, oy, y, x)
    ensures ChromaFill(c0, mark, w, h, b, ox, oy, cj, ci)[y / 2][x / 2] ==
            ChromaFill(c0, mark, w, h, b, ox, oy, y, x)[(y + oy) / 2][(x + ox) / 2]
  {
    assert ChromaFillOk(c0, mark, w, h, b, ox, oy, y, x);
    ChromaFillStep(c0, mark, w, h, b, ox, oy, y, x);
    ChromaFillKeeps(c0, mark, w, h, b, ox, oy, y, x + 1, cj, ci, x / 2, y / 2);
  }

  /** The picture after the same fill: each byte of a filled pixel is the
      byte of its donor pixel; every other byte of the main plane, the row
      padding included, is unchanged. The chroma planes of YV12 are what the
      row-major scan of the window makes of them, each filled cell in turn
      taking the current sample of its donor, so they change only at samples
      shared with a filled cell; the other layouts have none. */
  ghost predicate PatchedPixels(f: EngineFormat, fr0: Frame, fr1: Frame, w: int, h: int, mark0: Plane<byte>,
                                wx: int, wy: int, tx: int, ty: int, sx: int, sy: int)
  {
    FrameOk(f, fr0, w, h) && IsGrid(mark0, w, h) && Search.WindowInFrame(w, h, wx, wy, sx, sy) &&
    SameShape(fr0.main, fr1.main) && SameShape(fr0.u, fr1.u) && SameShape(fr0.v, fr1.v) &&
    (forall y, x, d :: 0 <= y < h && 0 <= x < w && 0 <= d < BytesPerPixel(f) && Fills(mark0, w, h, wx, wy, tx, ty, x, y) ==>
       fr1.main[y][ByteAt(f, x, d)] == fr0.main[sy + y - ty][ByteAt(f, sx + x - tx, d)]) &&
    (forall y, x, d :: 0 <= y < h && 0 <= x < w && 0 <= d < BytesPerPixel(f) && !Fills(mark0, w, h, wx, wy, tx, ty, x, y) ==>
       fr1.main[y][ByteAt(f, x, d)] == fr0.main[y][ByteAt(f, x, d)]) &&
    (forall y, k :: 0 <= y < |fr0.main| && 0 <= k < |fr0.main[y]| && (y >= h || k >= RowBytes(f, w)) ==>
       fr1.main[y][k] == fr0.main[y][k]) &&
    (f != YV12 ==> fr1.u == fr0.u && fr1.v == fr0.v) &&
    (f == YV12 ==>
       var b := Window(tx, ty, wx, wy, w, h);
       ChromaFillOk(fr0.u, mark0, w, h, b, sx - tx, sy - ty, b.y1, b.x0) &&
       ChromaFillOk(fr0.v, mark0, w, h, b, sx - tx, sy - ty, b.y1, b.x0) &&
       fr1.u == ChromaFill(fr0.u, mark0, w, h, b, sx - tx, sy - ty, b.y1, b.x0) &&
       fr1.v == ChromaFill(fr0.v, mark0, w, h, b, sx - tx, sy - ty, b.y1, b.x0))
  }

  /** A filled cell shares its chroma sample `(x / 2, y / 2)`. */
  lemma FilledTouches(mark: Plane<byte>, w: int, h: int, wx: int, wy: int, tx: int, ty: int, x: int, y: int)
    requires IsGrid(mark, w, h) && InFrame(x, y, w, h) && Fills(mark, w, h, wx, wy, tx, ty, x, y)
    ensures ChromaTouched(mark, w, h, wx, wy, tx, ty, x / 2, y / 2)
  {
    assert x == 2 * (x / 2) || x == 2 * (x / 2) + 1;
    assert y == 2 * (y / 2) || y == 2 * (y / 2) + 1;
  }

  /** A fill of a YV12 picture changes no chroma sample that no filled
      cell shares. */
  lemma PatchChromaUntouched(f: EngineFormat, fr0: Frame, fr1: Frame, w: int, h: int, mark0: Plane<byte>,
                             wx: int, wy: int, tx: int, ty: int, sx: int, sy: int, cx: int, cy: int)
    requires PatchedPixels(f, fr0, fr1, w, h, mark0, wx, wy, tx, ty, sx, sy) && f == YV12
    requires !ChromaTouched(mark0, w, h, wx, wy, tx, ty, cx, cy)
    ensures 0 <= cy < |fr0.u| && 0 <= cx < |fr0.u[cy]| ==> fr1.u[cy][cx] == fr0.u[cy][cx]
    ensures 0 <= cy < |fr0.v| && 0 <= cx < |fr0.v[cy]| ==> fr1.v[cy][cx] == fr0.v[cy][cx]
  {
    var b := Window(tx, ty, wx, wy, w, h);
    forall y, x | b.Contains(x, y) && mark0[y][x] != SOURCE && Before(x, y, b.x0, b.y1)
      ensures x / 2 != cx || y / 2 != cy
    {
      FilledTouches(mark0, w, h, wx, wy, tx, ty, x, y);
    }
    if 0 <= cy < |fr0.u| && 0 <= cx < |fr0.u[cy]| {
      ChromaFillUntouched(fr0.u, mark0, w, h, b, sx - tx, sy - ty, b.y1, b.x0, cx, cy);
    }
    if 0 <= cy < |fr0.v| && 0 <= cx < |fr0.v[cy]| {
      ChromaFillUntouched(fr0.v, mark0, w, h, b, sx - tx, sy - ty, b.y1, b.x0, cx, cy);
    }
  }

  /** The cell `(x, y)` of the grids after a fill. */
  lemma LayersAt(l0: Layers, l1: Layers, wx: int, wy: int, tx: int, ty: int, sx: int, sy: int, conf: int, x: int, y: int)
    requires PatchedLayers(l0, l1, wx, wy, tx, ty, sx, sy, conf) && InFrame(x, y, l0.w, l0.h)
    ensures Fills(l0.mark, l0.w, l0.h, wx, wy, tx, ty, x, y) ==>
      InFrame(sx + x - tx, sy + y - ty, l0.w, l0.h) &&
      l1.mark[y][x] == SOURCE && l1.confid[y][x] == conf && l1.gray[y][x] == l0.gray[sy + y - ty][sx + x - tx]
    ensures !Fills(l0.mark, l0.w, l0.h, wx, wy, tx, ty, x, y) ==>
      l1.mark[y][x] == l0.mark[y][x] && l1.confid[y][x] == l0.confid[y][x] && l1.gray[y][x] == l0.gray[y][x]
  {
  }

  /** Byte `d` of pixel `(x, y)` after a fill. */
  lemma PixelsAt(f: EngineFormat, fr0: Frame, fr1: Frame, w: int, h: int, mark0: Plane<byte>,
                 wx: int, wy: int, tx: int, ty: int, sx: int, sy: int, x: int, y: int, d: int)
    requires PatchedPixels(f, fr0, fr1, w, h, mark0, wx, wy, tx, ty, sx, sy)
    requires InFrame(x, y, w, h) && 0 <= d < BytesPerPixel(f)
    ensures Fills(mark0, w, h, wx, wy, tx, ty, x, y) ==>
      fr1.main[y][ByteAt(f, x, d)] == fr0.main[sy + y - ty][ByteAt(f, sx + x - tx, d)]
    ensures !Fills(mark0, w, h, wx, wy, tx, ty, x, y) ==>
      fr1.main[y][ByteAt(f, x, d)] == fr0.main[y][ByteAt(f, x, d)]
  {
  }

  /** A patch with a confidence in `[0, FULL_CONFIDENCE]` keeps every
      confidence in that range. */
  lemma PatchKeepsConfidBounded(l0: Layers, l1: Layers, wx: int, wy: int, tx: int, ty: int, sx: int, sy: int, conf: int)
    requires PatchedLayers(l0, l1, wx, wy, tx, ty, sx, sy, conf) && ConfidBounded(l0) && 0 <= conf <= FULL_CONFIDENCE
    ensures ConfidBounded(l1)
  {
  }

  /** A fill keeps the gray grid the luma of the picture: a filled cell
      takes both the gray value and the colour bytes of the same donor
      cell, and the luma of a pixel depends on nothing else. */
  lemma PatchKeepsLuma(f: EngineFormat, fr0: Frame, fr1: Frame, l0: Layers, l1: Layers,
                       wx: int, wy: int, tx: int, ty: int, sx: int, sy: int, conf: int)
    requires PatchedLayers(l0, l1, wx, wy, tx, ty, sx, sy, conf)
    requires PatchedPixels(f, fr0, fr1, l0.w, l0.h, l0.mark, wx, wy, tx, ty, sx, sy)
    requires GrayIsLuma(f, fr0, l0.gray, l0.w, l0.h)
    ensures GrayIsLuma(f, fr1, l1.gray, l1.w, l1.h)
  {
    var w, h := l0.w, l0.h;
    assert FrameOk(f, fr1, w, h) by {
      forall y | 0 <= y < |fr1.main| ensures |fr1.main[y]| >= RowBytes(f, w) {
        assert |fr1.main[y]| == |fr0.main[y]|;
      }
      if f == YV12 {
        forall y | 0 <= y < |fr1.u| ensures |fr1.u[y]| >= (w + 1) / 2 {
          assert |fr1.u[y]| == |fr0.u[y]|;
        }
        forall y | 0 <= y < |fr1.v| ensures |fr1.v[y]| >= (w + 1) / 2 {
          assert |fr1.v[y]| == |fr0.v[y]|;
        }
      }
    }
    forall y, x | 0 <= y < h && 0 <= x < w
      ensures l1.gray[y][x] == Luma(f, fr1, w, h, x, y)
    {
      LayersAt(l0, l1, wx, wy, tx, ty, sx, sy, conf, x, y);
      PixelsAt(f, fr0, fr1, w, h, l0.mark, wx, wy, tx, ty, sx, sy, x, y, 0);
      if BytesPerPixel(f) > 1 {
        PixelsAt(f, fr0, fr1, w, h, l0.mark, wx, wy, tx, ty, sx, sy, x, y, 1);
        PixelsAt(f, fr0, fr1, w, h, l0.mark, wx, wy, tx, ty, sx, sy, x, y, 2);
      }
      if Fills(l0.mark, w, h, wx, wy, tx, ty, x, y) {
        assert l1.gray[y][x] == l0.gray[sy + y - ty][sx + x - tx] == Luma(f, fr0, w, h, sx + x - tx, sy + y - ty);
      }
    }
  }

  /** A fill makes the whole clipped window SOURCE, marks nothing outside
      it, never takes SOURCE away, and keeps the confidences in range when
      the new confidence is in range. When the centre was not SOURCE, the
      number of cells left to fill strictly drops. */
  lemma {:induction false} PatchProgress(l0: Layers, l1: Layers, wx: int, wy: int, tx: int, ty: int, sx: int, sy: int, conf: int)
    requires PatchedLayers(l0, l1, wx, wy, tx, ty, sx, sy, conf)
    ensures var b := Window(tx, ty, wx, wy, l0.w, l0.h);
      forall y, x :: b.Contains(x, y) ==> l1.mark[y][x] == SOURCE
    ensures var b := Window(tx, ty, wx, wy, l0.w, l0.h);
      Frontier.FilledWithin(l0.mark, l1.mark, l0.w, l0.h, b.x0, b.x1, b.y0, b.y1)
    ensures ConfidBounded(l0) && 0 <= conf <= FULL_CONFIDENCE ==> ConfidBounded(l1)
    ensures InFrame(tx, ty, l0.w, l0.h) && l0.mark[ty][tx] != SOURCE && wx >= 1 && wy >= 1 ==>
      CountIf(l1.mark, Frontier.IsNotSource) < CountIf(l0.mark, Frontier.IsNotSource)
  {
    var b := Window(tx, ty, wx, wy, l0.w, l0.h);
    forall y, x | 0 <= y < l0.h && 0 <= x < l0.w
      ensures b.Contains(x, y) ==> l1.mark[y][x] == SOURCE
      ensures l1.mark[y][x] == l0.mark[y][x] || (b.Contains(x, y) && l1.mark[y][x] == SOURCE)
      ensures ConfidBounded(l0) && 0 <= conf <= FULL_CONFIDENCE ==> 0 <= l1.confid[y][x] <= FULL_CONFIDENCE
    {
      LayersAt(l0, l1, wx, wy, tx, ty, sx, sy, conf, x, y);
    }
    if InFrame(tx, ty, l0.w, l0.h) && l0.mark[ty][tx] != SOURCE && wx >= 1 && wy >= 1 {
      LayersAt(l0, l1, wx, wy, tx, ty, sx, sy, conf, tx, ty);
      CountStrict(l0.mark, l1.mark, Frontier.IsNotSource, l0.w, tx, ty);
    }
  }

  /** One step of the fill loop on the marks: the patch fill of the
      window of `(tx, ty)`, whose centre was not SOURCE, then the boundary
      repair of the window two cells wider. The boundary rule is restored,
      SOURCE cells stay SOURCE, the number of
      unfilled cells strictly drops, and nothing changes outside the
      repaired window. */
  lemma StepMarks(l0: Layers, l1: Layers, g2: Plane<byte>, wx: int, wy: int, tx: int, ty: int, sx: int, sy: int, conf: int)
    requires PatchedLayers(l0, l1, wx, wy, tx, ty, sx, sy, conf) && Frontier.BoundaryRule(l0.mark, l0.w, l0.h)
    requires wx >= 1 && wy >= 1 && InFrame(tx, ty, l0.w, l0.h) && l0.mark[ty][tx] != SOURCE
    requires var b2 := Window(tx, ty, wx + 2, wy + 2, l0.w, l0.h);
      g2 == Frontier.Relabelled(l1.mark, l0.w, l0.h, b2.x0, b2.x1, b2.y0, b2.y1)
    ensures Frontier.BoundaryRule(g2, l0.w, l0.h)
    ensures forall y, x :: 0 <= y < l0.h && 0 <= x < l0.w && l0.mark[y][x] == SOURCE ==> g2[y][x] == SOURCE
    ensures CountIf(g2, Frontier.IsNotSource) < CountIf(l0.mark, Frontier.IsNotSource)
    ensures forall y, x :: 0 <= y < l0.h && 0 <= x < l0.w && !Window(tx, ty, wx + 2, wy + 2, l0.w, l0.h).Contains(x, y) ==>
      g2[y][x] == l0.mark[y][x]
  {
    var w, h := l0.w, l0.h;
    var b1, b2 := Window(tx, ty, wx, wy, w, h), Window(tx, ty, wx + 2, wy + 2, w, h);
    PatchProgress(l0, l1, wx, wy, tx, ty, sx, sy, conf);
    Frontier.RelabelRestoresRule(l0.mark, l1.mark, w, h, b1.x0, b1.x1, b1.y0, b1.y1, b2.x0, b2.x1, b2.y0, b2.y1);
    assert Frontier.SameSources(l1.mark, g2, w, h);
    CountMono(l1.mark, g2, Frontier.IsNotSource, w);
    assert CountIf(g2, Frontier.IsNotSource) <= CountIf(l1.mark, Frontier.IsNotSource);
  }
}
