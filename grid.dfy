/** Row-major grids and the small amount of arithmetic shared by the
    inpainting engine: bytes, planes of cells, window clipping, the
    row-major scan order and cell counting. */
module Grid {

  /** An `unsigned char` of the engine. */
  newtype byte = b: int | 0 <= b < 256

  /** A grid of cells, indexed `g[y][x]`: row `y`, column `x`. */
  type Plane<T> = seq<seq<T>>

  /** `g` has exactly `h` rows of exactly `w` cells. */
  ghost predicate IsGrid<T>(g: Plane<T>, w: int, h: int)
  {
    0 <= w && |g| == h && forall y :: 0 <= y < h ==> |g[y]| == w
  }

  /** `g` has at least `h` rows of at least `w` cells (a buffer whose
      pitch may exceed the bytes of a row). */
  ghost predicate Covers<T>(g: Plane<T>, w: int, h: int)
  {
    |g| >= h && forall y :: 0 <= y < |g| ==> |g[y]| >= w
  }

  /** The value held by a two-dimensional array, row by row. */
  ghost function View<T>(a: array2<T>): (g: Plane<T>)
    reads a
    ensures IsGrid(g, a.Length1, a.Length0)
    ensures forall y, x :: 0 <= y < a.Length0 && 0 <= x < a.Length1 ==> g[y][x] == a[y, x]
  {
    seq(a.Length0, y requires 0 <= y < a.Length0 reads a =>
      seq(a.Length1, x requires 0 <= x < a.Length1 reads a => a[y, x]))
  }

  function Max(a: int, b: int): int { if a > b then a else b }

  function Min(a: int, b: int): int { if a < b then a else b }

  /** Products of non-negative factors grow with each factor. */
  lemma ProductMono(a: int, b: int, c: int, d: int)
    requires 0 <= a <= c && 0 <= b <= d
    ensures a * b <= c * d
  {
    assert a * b <= c * b;
    assert c * b <= c * d;
  }

  predicate InFrame(x: int, y: int, w: int, h: int)
  {
    0 <= x < w && 0 <= y < h
  }

  /** C division of integers: the quotient is truncated toward zero. */
  function Quot(a: int, b: int): (q: int)
    requires b > 0
    ensures a >= 0 ==> 0 <= q && q * b <= a < (q + 1) * b
  {
    if a >= 0 then a / b else -((-a) / b)
  }

  /** The half-open rectangle `[x0, x1) x [y0, y1)` of cells. */
  datatype Box = Box(x0: int, x1: int, y0: int, y1: int)
  {
    predicate Contains(x: int, y: int)
    {
      x0 <= x < x1 && y0 <= y < y1
    }

    /** The rectangle lies inside a `w` by `h` frame. */
    predicate Within(w: int, h: int)
    {
      0 <= x0 && x1 <= w && 0 <= y0 && y1 <= h
    }
  }

  /** The window `[i - rx, i + rx) x [j - ry, j + ry)` clipped to a `w` by `h`
      frame, as the engine's `MAX(.., 0)` and `MIN(.., size)` bounds write it. */
  function Window(i: int, j: int, rx: int, ry: int, w: int, h: int): (b: Box)
    requires 0 <= w && 0 <= h
    ensures b.Within(w, h)
    ensures forall x, y :: b.Contains(x, y) <==> InFrame(x, y, w, h) && i - rx <= x < i + rx && j - ry <= y < j + ry
  {
    Box(Max(i - rx, 0), Min(i + rx, w), Max(j - ry, 0), Min(j + ry, h))
  }

  /** Cell `(x, y)` is visited before cell `(x2, y2)` by a row-major scan. */
  predicate Before(x: int, y: int, x2: int, y2: int)
  {
    y < y2 || (y == y2 && x < x2)
  }

  /** Number of cells of a row that satisfy `p`. */
  function CountRow<T>(r: seq<T>, p: T -> bool): nat
  {
    if r == [] then 0 else CountRow(r[..|r| - 1], p) + (if p(r[|r| - 1]) then 1 else 0)
  }

  /** Number of cells of a grid that satisfy `p`. */
  function CountIf<T>(g: Plane<T>, p: T -> bool): nat
  {
    if g == [] then 0 else CountIf(g[..|g| - 1], p) + CountRow(g[|g| - 1], p)
  }

  lemma {:induction false} CountRowMono<T>(r: seq<T>, r2: seq<T>, p: T -> bool)
    requires |r| == |r2|
    requires forall x :: 0 <= x < |r| ==> p(r2[x]) ==> p(r[x])
    ensures CountRow(r2, p) <= CountRow(r, p)
  {
    if r != [] {
      CountRowMono(r[..|r| - 1], r2[..|r2| - 1], p);
    }
  }

  lemma {:induction false} CountRowStrict<T>(r: seq<T>, r2: seq<T>, p: T -> bool, k: int)
    requires |r| == |r2| && 0 <= k < |r|
    requires forall x :: 0 <= x < |r| ==> p(r2[x]) ==> p(r[x])
    requires p(r[k]) && !p(r2[k])
    ensures CountRow(r2, p) < CountRow(r, p)
  {
    if k == |r| - 1 {
      CountRowMono(r[..|r| - 1], r2[..|r2| - 1], p);
    } else {
      CountRowStrict(r[..|r| - 1], r2[..|r2| - 1], p, k);
    }
  }

  lemma {:induction false} CountMono<T>(g: Plane<T>, g2: Plane<T>, p: T -> bool, w: int)
    requires IsGrid(g, w, |g|) && IsGrid(g2, w, |g|)
    requires forall y, x :: 0 <= y < |g| && 0 <= x < w ==> p(g2[y][x]) ==> p(g[y][x])
    ensures CountIf(g2, p) <= CountIf(g, p)
  {
    if g != [] {
      var n := |g| - 1;
      CountMono(g[..n], g2[..n], p, w);
      CountRowMono(g[n], g2[n], p);
    }
  }

  /** If every cell that satisfies `p` in `g2` satisfies it in `g`, and one
      cell stops satisfying it, `g2` has strictly fewer such cells. */
  lemma {:induction false} CountStrict<T>(g: Plane<T>, g2: Plane<T>, p: T -> bool, w: int, x: int, y: int)
    requires IsGrid(g, w, |g|) && IsGrid(g2, w, |g|) && InFrame(x, y, w, |g|)
    requires forall y, x :: 0 <= y < |g| && 0 <= x < w ==> p(g2[y][x]) ==> p(g[y][x])
    requires p(g[y][x]) && !p(g2[y][x])
    ensures CountIf(g2, p) < CountIf(g, p)
  {
    var n := |g| - 1;
    if y == n {
      CountMono(g[..n], g2[..n], p, w);
      CountRowStrict(g[n], g2[n], p, x);
    } else {
      CountStrict(g[..n], g2[..n], p, w, x, y);
      CountRowMono(g[n], g2[n], p);
    }
  }

  lemma {:induction false} CountRowPositive<T>(r: seq<T>, p: T -> bool, k: int)
    requires 0 <= k < |r| && p(r[k])
    ensures CountRow(r, p) > 0
  {
    if k < |r| - 1 {
      CountRowPositive(r[..|r| - 1], p, k);
    }
  }

  /** A grid holding a cell that satisfies `p` counts at least one. */
  lemma {:induction false} CountPositive<T>(g: Plane<T>, p: T -> bool, w: int, x: int, y: int)
    requires IsGrid(g, w, |g|) && InFrame(x, y, w, |g|) && p(g[y][x])
    ensures CountIf(g, p) > 0
  {
    var n := |g| - 1;
    if y == n {
      CountRowPositive(g[n], p, x);
    } else {
      CountPositive(g[..n], p, w, x, y);
    }
  }

  /** Two grids of the same shape that agree on every cell are equal. */
  lemma PlaneEq<T>(a: Plane<T>, b: Plane<T>, w: int, h: int)
    requires IsGrid(a, w, h) && IsGrid(b, w, h)
    requires forall y, x :: 0 <= y < h && 0 <= x < w ==> a[y][x] == b[y][x]
    ensures a == b
  {
    forall y | 0 <= y < h
      ensures a[y] == b[y]
    {
    }
  }

  /** Cell `(x, y)` satisfies `p` and one of its 4-neighbours inside the
      frame does not. */
  predicate OnEdgeOf<T>(g: Plane<T>, p: T -> bool, w: int, h: int, x: int, y: int)
    requires IsGrid(g, w, h) && InFrame(x, y, w, h)
  {
    p(g[y][x]) &&
    ((x > 0 && !p(g[y][x - 1])) || (x + 1 < w && !p(g[y][x + 1])) ||
     (y > 0 && !p(g[y - 1][x])) || (y + 1 < h && !p(g[y + 1][x])))
  }

  lemma {:induction false} WalkRow<T>(g: Plane<T>, p: T -> bool, w: int, h: int, y: int, a: int, b: int)
    requires IsGrid(g, w, h) && 0 <= y < h && 0 <= a < w && 0 <= b < w
    requires p(g[y][a]) && !p(g[y][b])
    ensures exists x :: 0 <= x < w && OnEdgeOf(g, p, w, h, x, y)
    decreases if a < b then b - a else a - b
  {
    if a < b {
      if !p(g[y][a + 1]) {
        assert OnEdgeOf(g, p, w, h, a, y);
      } else {
        WalkRow(g, p, w, h, y, a + 1, b);
      }
    } else {
      if !p(g[y][a - 1]) {
        assert OnEdgeOf(g, p, w, h, a, y);
      } else {
        WalkRow(g, p, w, h, y, a - 1, b);
      }
    }
  }

  lemma {:induction false} WalkColumn<T>(g: Plane<T>, p: T -> bool, w: int, h: int, x: int, a: int, b: int)
    requires IsGrid(g, w, h) && 0 <= x < w && 0 <= a < h && 0 <= b < h
    requires p(g[a][x]) && !p(g[b][x])
    ensures exists y :: 0 <= y < h && OnEdgeOf(g, p, w, h, x, y)
    decreases if a < b then b - a else a - b
  {
    if a < b {
      if !p(g[a + 1][x]) {
        assert OnEdgeOf(g, p, w, h, x, a);
      } else {
        WalkColumn(g, p, w, h, x, a + 1, b);
      }
    } else {
      if !p(g[a - 1][x]) {
        assert OnEdgeOf(g, p, w, h, x, a);
      } else {
        WalkColumn(g, p, w, h, x, a - 1, b);
      }
    }
  }

  /** A grid holding a cell that satisfies `p` and one that does not has a
      cell satisfying `p` beside one that does not: walk along the row of
      the first, then along the column of the second. */
  lemma {:induction false} FrontierOf<T>(g: Plane<T>, p: T -> bool, w: int, h: int, tx: int, ty: int, sx: int, sy: int)
    requires IsGrid(g, w, h) && InFrame(tx, ty, w, h) && InFrame(sx, sy, w, h)
    requires p(g[ty][tx]) && !p(g[sy][sx])
    ensures exists y, x :: 0 <= y < h && 0 <= x < w && OnEdgeOf(g, p, w, h, x, y)
  {
    if !p(g[ty][sx]) {
      WalkRow(g, p, w, h, ty, tx, sx);
    } else {
      WalkColumn(g, p, w, h, sx, ty, sy);
    }
  }
}
