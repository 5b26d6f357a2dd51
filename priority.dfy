/** The fill-order terms of a BOUNDARY cell: the confidence term (the mean
    confidence of its window), the isophote gradient, the boundary normal,
    the data term and their product, the priority. All are functions of the
    engine's mark, confidence and gray grids. */
module Priority {
  import opened Grid
  import opened Defs
  import Pixels

  /** The engine grids the priority reads, for a `w` by `h` frame. */
  datatype Layers = Layers(mark: Plane<byte>, confid: Plane<int>, gray: Plane<byte>, w: int, h: int)

  ghost predicate LayersOk(l: Layers)
  {
    l.w >= 2 && l.h >= 2 &&
    IsGrid(l.mark, l.w, l.h) && IsGrid(l.confid, l.w, l.h) && IsGrid(l.gray, l.w, l.h)
  }

  /** Every confidence lies in `[0, FULL_CONFIDENCE]`. */
  ghost predicate ConfidBounded(l: Layers)
    requires LayersOk(l)
  {
    forall y, x :: 0 <= y < l.h && 0 <= x < l.w ==> 0 <= l.confid[y][x] <= FULL_CONFIDENCE
  }

  // ---------------------------------------------------------------------
  // Confidence term

  /** Sum of the cells `[x0, x1)` of a row. */
  function RowSum(r: seq<int>, x0: int, x1: int): int
    requires 0 <= x0 && x1 <= |r|
    decreases x1 - x0
  {
    if x1 <= x0 then 0 else RowSum(r, x0, x1 - 1) + r[x1 - 1]
  }

  /** Sum of the cells of a rectangle of a grid, row by row. */
  function BoxSum(g: Plane<int>, w: int, b: Box): int
    requires IsGrid(g, w, |g|) && b.Within(w, |g|)
    decreases b.y1 - b.y0
  {
    if b.y1 <= b.y0 then 0
    else BoxSum(g, w, b.(y1 := b.y1 - 1)) + RowSum(g[b.y1 - 1], b.x0, b.x1)
  }

  lemma {:induction false} RowSumBounded(r: seq<int>, x0: int, x1: int)
    requires 0 <= x0 <= x1 <= |r|
    requires forall x :: x0 <= x < x1 ==> 0 <= r[x] <= FULL_CONFIDENCE
    ensures 0 <= RowSum(r, x0, x1) <= FULL_CONFIDENCE * (x1 - x0)
    decreases x1 - x0
  {
    if x0 < x1 {
      RowSumBounded(r, x0, x1 - 1);
    }
  }

  lemma {:induction false} BoxSumBounded(g: Plane<int>, w: int, b: Box)
    requires IsGrid(g, w, |g|) && b.Within(w, |g|) && b.x0 <= b.x1 && b.y0 <= b.y1
    requires forall y, x :: b.Contains(x, y) ==> 0 <= g[y][x] <= FULL_CONFIDENCE
    ensures 0 <= BoxSum(g, w, b) <= FULL_CONFIDENCE * ((b.x1 - b.x0) * (b.y1 - b.y0))
    decreases b.y1 - b.y0
  {
    if b.y0 < b.y1 {
      var n, k := b.x1 - b.x0, b.y1 - b.y0;
      BoxSumBounded(g, w, b.(y1 := b.y1 - 1));
      RowSumBounded(g[b.y1 - 1], b.x0, b.x1);
      MulStep(n, k);
    }
  }

  lemma MulStep(n: int, k: int)
    ensures n * (k - 1) + n == n * k
  {
  }

  /** The confidence term of cell `(i, j)`: the confidences of its window
      summed and divided, truncating, by the full window area `2wx * 2wy`
      even where the window is clipped by the frame. */
  function Confidence(l: Layers, wx: int, wy: int, i: int, j: int): int
    requires LayersOk(l) && wx >= 1 && wy >= 1
  {
    Quot(BoxSum(l.confid, l.w, Window(i, j, wx, wy, l.w, l.h)), (2 * wx) * (2 * wy))
  }

  /** A quotient of `s` in `[0, m*d]` by `d` is in `[0, m]`. */
  lemma QuotAtMost(s: int, d: int, m: int)
    requires d > 0 && m >= 0 && 0 <= s <= m * d
    ensures 0 <= Quot(s, d) <= m
  {
    var q := Quot(s, d);
    assert (m + 1) * d == m * d + d;
    if q > m {
      ProductMono(m + 1, d, q, d);
    }
  }

  /** A confidence term of confidences in `[0, 2048]` is in `[0, 2048]`:
      the clipped window never holds more cells than the divisor counts. */
  lemma ConfidenceBounded(l: Layers, wx: int, wy: int, i: int, j: int)
    requires LayersOk(l) && wx >= 1 && wy >= 1 && ConfidBounded(l)
    ensures 0 <= Confidence(l, wx, wy, i, j) <= FULL_CONFIDENCE
  {
    var b := Window(i, j, wx, wy, l.w, l.h);
    var area := (2 * wx) * (2 * wy);
    var s := BoxSum(l.confid, l.w, b);
    ProductMono(1, 1, 2 * wx, 2 * wy);
    WindowSumBounded(l.confid, l.w, b, 2 * wx, 2 * wy);
    QuotAtMost(s, area, FULL_CONFIDENCE);
  }

  /** A rectangle of at most `dx` by `dy` cells of confidences sums to at
      most `2048 * dx * dy`. */
  lemma WindowSumBounded(g: Plane<int>, w: int, b: Box, dx: int, dy: int)
    requires IsGrid(g, w, |g|) && b.Within(w, |g|) && 0 <= dx && 0 <= dy && b.x1 - b.x0 <= dx && b.y1 - b.y0 <= dy
    requires forall y, x :: b.Contains(x, y) ==> 0 <= g[y][x] <= FULL_CONFIDENCE
    ensures 0 <= BoxSum(g, w, b) <= FULL_CONFIDENCE * (dx * dy)
  {
    if b.x1 < b.x0 {
      EmptyRows(g, w, b);
      ProductMono(0, 0, dx, dy);
    } else if b.y1 < b.y0 {
      ProductMono(0, 0, dx, dy);
    } else {
      BoxSumBounded(g, w, b);
      ProductMono(b.x1 - b.x0, b.y1 - b.y0, dx, dy);
    }
  }

  lemma {:induction false} EmptyRows(g: Plane<int>, w: int, b: Box)
    requires IsGrid(g, w, |g|) && b.Within(w, |g|) && b.x1 <= b.x0
    ensures BoxSum(g, w, b) == 0
    decreases b.y1 - b.y0
  {
    if b.y0 < b.y1 {
      EmptyRows(g, w, b.(y1 := b.y1 - 1));
    }
  }

  // ---------------------------------------------------------------------
  // Gradient

  /** The isophote gradient of the gray grid at `(i, j)`, scaled by two:
      the sum of the two backward differences of a 2 by 2 block, or one
      backward difference doubled where the block leaves the frame. */
  function GradientAt(gray: Plane<byte>, w: int, h: int, i: int, j: int): Gradient
    requires w >= 2 && h >= 2 && IsGrid(gray, w, h) && InFrame(i, j, w, h)
  {
    if i == 0 && j == 0 then
      Gradient((gray[0][1] as int - gray[0][0] as int) * 2, (gray[1][0] as int - gray[0][0] as int) * 2)
    else if i == 0 then
      Gradient((gray[j][1] as int - gray[j][0] as int) + (gray[j - 1][1] as int - gray[j - 1][0] as int),
               (gray[j][0] as int - gray[j - 1][0] as int) * 2)
    else if j == 0 then
      Gradient((gray[0][i] as int - gray[0][i - 1] as int) * 2,
               (gray[1][i] as int - gray[0][i] as int) + (gray[1][i - 1] as int - gray[0][i - 1] as int))
    else
      Gradient((gray[j][i] as int - gray[j][i - 1] as int) + (gray[j - 1][i] as int - gray[j - 1][i - 1] as int),
               (gray[j][i] as int - gray[j - 1][i] as int) + (gray[j][i - 1] as int - gray[j - 1][i - 1] as int))
  }

  /** On a linear ramp `gray[y][x] == c + a*x + b*y` the scaled gradient is
      exactly `(2a, 2b)` at every cell, edges and corners included. */
  lemma GradientOfRamp(gray: Plane<byte>, w: int, h: int, a: int, b: int, c: int, i: int, j: int)
    requires w >= 2 && h >= 2 && IsGrid(gray, w, h) && InFrame(i, j, w, h)
    requires forall y, x :: 0 <= y < h && 0 <= x < w ==> gray[y][x] as int == c + a * x + b * y
    ensures GradientAt(gray, w, h, i, j) == Gradient(2 * a, 2 * b)
  {
    var i1 := if i == 0 then 1 else i;
    var j1 := if j == 0 then 1 else j;
    assert gray[j1][i1] as int - gray[j1][i1 - 1] as int == a;
    assert gray[j1 - 1][i1] as int - gray[j1 - 1][i1 - 1] as int == a;
    assert gray[j1][i1] as int - gray[j1 - 1][i1] as int == b;
    assert gray[j1][i1 - 1] as int - gray[j1 - 1][i1 - 1] as int == b;
  }

  /** Each gradient component is at most twice a byte difference. */
  lemma GradientBounded(gray: Plane<byte>, w: int, h: int, i: int, j: int)
    requires w >= 2 && h >= 2 && IsGrid(gray, w, h) && InFrame(i, j, w, h)
    ensures -510 <= GradientAt(gray, w, h, i, j).gradX <= 510
    ensures -510 <= GradientAt(gray, w, h, i, j).gradY <= 510
  {
  }

  function Mag(g: Gradient): int
  {
    g.gradX * g.gradX + g.gradY * g.gradY
  }

  /** Cell `(x, y)` is SOURCE and so are its in-frame 4-neighbours: its
      gradient does not straddle the fill front. */
  predicate GradientSite(mark: Plane<byte>, w: int, h: int, x: int, y: int)
    requires IsGrid(mark, w, h) && InFrame(x, y, w, h)
  {
    mark[y][x] == SOURCE &&
    (x + 1 < w ==> mark[y][x + 1] == SOURCE) && (x - 1 >= 0 ==> mark[y][x - 1] == SOURCE) &&
    (y + 1 < h ==> mark[y + 1][x] == SOURCE) && (y - 1 >= 0 ==> mark[y - 1][x] == SOURCE)
  }

  /** The strongest gradient seen so far, its squared magnitude and, for
      the proofs, the cell it was taken from. */
  datatype Best = Best(grad: Gradient, mag: int, ghost x: int, ghost y: int)

  const NoGradient := Best(Gradient(0, 0), 0, 0, 0)

  /** One cell of the scan: a site whose squared magnitude exceeds the best
      so far replaces it; ties keep the earlier cell. */
  function Consider(l: Layers, b: Best, x: int, y: int): Best
    requires LayersOk(l) && InFrame(x, y, l.w, l.h)
  {
    if GradientSite(l.mark, l.w, l.h, x, y) && Mag(GradientAt(l.gray, l.w, l.h, x, y)) > b.mag then
      var g := GradientAt(l.gray, l.w, l.h, x, y);
      Best(g, Mag(g), x, y)
    else b
  }

  /** The scan of cells `[x0, x)` of row `y`, from `b`. */
  function ScanRow(l: Layers, b: Best, y: int, x0: int, x: int): Best
    requires LayersOk(l) && 0 <= y < l.h && 0 <= x0 && x <= l.w
    decreases x - x0
  {
    if x <= x0 then b else Consider(l, ScanRow(l, b, y, x0, x - 1), x - 1, y)
  }

  /** The scan of rows `[box.y0, y)` of a box, row-major. */
  function ScanRows(l: Layers, box: Box, y: int): Best
    requires LayersOk(l) && box.Within(l.w, l.h) && y <= l.h
    decreases y - box.y0
  {
    if y <= box.y0 then NoGradient else ScanRow(l, ScanRows(l, box, y - 1), y - 1, box.x0, box.x1)
  }

  /** Cell `(cx, cy)` is a site of the box visited before the scan reached
      column `x` of row `y`. */
  ghost predicate ScannedSite(l: Layers, box: Box, y: int, x: int, cx: int, cy: int)
    requires LayersOk(l) && box.Within(l.w, l.h)
  {
    box.Contains(cx, cy) && Before(cx, cy, x, y) && GradientSite(l.mark, l.w, l.h, cx, cy)
  }

  /** `b` is the first strongest gradient among the sites scanned up to
      `(x, y)`, or no gradient when all of them are flat. */
  ghost predicate BestSoFar(l: Layers, box: Box, y: int, x: int, b: Best)
    requires LayersOk(l) && box.Within(l.w, l.h)
  {
    (forall cy, cx :: ScannedSite(l, box, y, x, cx, cy) ==> Mag(GradientAt(l.gray, l.w, l.h, cx, cy)) <= b.mag) &&
    (b.mag == 0 ==> b.grad == Gradient(0, 0)) &&
    (b.mag != 0 ==>
       ScannedSite(l, box, y, x, b.x, b.y) && b.grad == GradientAt(l.gray, l.w, l.h, b.x, b.y) && b.mag == Mag(b.grad) &&
       forall cy, cx :: ScannedSite(l, box, y, x, cx, cy) && Before(cx, cy, b.x, b.y) ==>
         Mag(GradientAt(l.gray, l.w, l.h, cx, cy)) < b.mag)
  }

  /** Considering the next cell of a row keeps the first strongest
      gradient; `next` is the column after `x`. */
  lemma ConsiderBest(l: Layers, box: Box, p: Best, y: int, x: int, next: int)
    requires LayersOk(l) && box.Within(l.w, l.h) && box.y0 <= y < box.y1 && box.x0 <= x < box.x1 && next == x + 1
    requires BestSoFar(l, box, y, x, p)
    ensures BestSoFar(l, box, y, next, Consider(l, p, x, y))
  {
    var g := GradientAt(l.gray, l.w, l.h, x, y);
    MagNonNegative(g);
    if GradientSite(l.mark, l.w, l.h, x, y) && Mag(g) > p.mag {
      assert Consider(l, p, x, y) == Best(g, Mag(g), x, y);
      forall cy, cx | ScannedSite(l, box, y, next, cx, cy) && (cx, cy) != (x, y)
        ensures ScannedSite(l, box, y, x, cx, cy)
      {
      }
    } else {
      assert Consider(l, p, x, y) == p;
      forall cy, cx | ScannedSite(l, box, y, next, cx, cy) && (cx, cy) != (x, y)
        ensures ScannedSite(l, box, y, x, cx, cy)
      {
      }
    }
  }

  lemma MagNonNegative(g: Gradient)
    ensures Mag(g) >= 0
  {
    assert g.gradX * g.gradX >= 0 && g.gradY * g.gradY >= 0;
  }

  lemma {:induction false} ScanRowBest(l: Layers, box: Box, b: Best, y: int, x: int)
    requires LayersOk(l) && box.Within(l.w, l.h) && box.y0 <= y < box.y1 && box.x0 <= x <= box.x1
    requires BestSoFar(l, box, y, box.x0, b)
    ensures BestSoFar(l, box, y, x, ScanRow(l, b, y, box.x0, x))
    decreases x - box.x0
  {
    if x > box.x0 {
      ScanRowBest(l, box, b, y, x - 1);
      ConsiderBest(l, box, ScanRow(l, b, y, box.x0, x - 1), y, x - 1, x);
    }
  }

  lemma {:induction false} ScanRowsBest(l: Layers, box: Box, y: int)
    requires LayersOk(l) && box.Within(l.w, l.h) && box.y0 <= y <= box.y1 && box.x0 <= box.x1
    ensures BestSoFar(l, box, y, box.x0, ScanRows(l, box, y))
    decreases y - box.y0
  {
    if y > box.y0 {
      ScanRowsBest(l, box, y - 1);
      var p := ScanRows(l, box, y - 1);
      assert BestSoFar(l, box, y - 1, box.x0, p);
      ScanRowBest(l, box, p, y - 1, box.x1);
      var r := ScanRow(l, p, y - 1, box.x0, box.x1);
      forall cy, cx | ScannedSite(l, box, y, box.x0, cx, cy)
        ensures ScannedSite(l, box, y - 1, box.x1, cx, cy)
      {
      }
    }
  }

  /** The representative gradient of the window of `(i, j)`. */
  function WindowGradient(l: Layers, wx: int, wy: int, i: int, j: int): Best
    requires LayersOk(l)
  {
    var box := Window(i, j, wx, wy, l.w, l.h);
    ScanRows(l, box, box.y1)
  }

  /** The representative gradient is the strongest among the window's
      sites whose neighbours are all SOURCE, the first such in row-major
      order, or zero when every such site is flat. */
  lemma WindowGradientIsFirstMax(l: Layers, wx: int, wy: int, i: int, j: int)
    requires LayersOk(l)
    ensures var box := Window(i, j, wx, wy, l.w, l.h);
      var b := WindowGradient(l, wx, wy, i, j);
      (forall cy, cx :: box.Contains(cx, cy) && GradientSite(l.mark, l.w, l.h, cx, cy) ==>
         Mag(GradientAt(l.gray, l.w, l.h, cx, cy)) <= b.mag) &&
      (b.mag == 0 ==> b.grad == Gradient(0, 0)) &&
      (b.mag != 0 ==>
         box.Contains(b.x, b.y) && GradientSite(l.mark, l.w, l.h, b.x, b.y) &&
         b.grad == GradientAt(l.gray, l.w, l.h, b.x, b.y) && b.mag == Mag(b.grad) &&
         forall cy, cx :: box.Contains(cx, cy) && GradientSite(l.mark, l.w, l.h, cx, cy) && Before(cx, cy, b.x, b.y) ==>
           Mag(GradientAt(l.gray, l.w, l.h, cx, cy)) < b.mag)
  {
    var box := Window(i, j, wx, wy, l.w, l.h);
    if box.x0 <= box.x1 && box.y0 <= box.y1 {
      ScanRowsBest(l, box, box.y1);
    } else if box.y1 < box.y0 {
      assert ScanRows(l, box, box.y1) == NoGradient;
    } else {
      assert BestSoFar(l, box, box.y0, box.x0, NoGradient);
      EmptyScan(l, box, box.y1);
    }
  }

  lemma {:induction false} EmptyScan(l: Layers, box: Box, y: int)
    requires LayersOk(l) && box.Within(l.w, l.h) && box.x1 < box.x0 && box.y0 <= y <= l.h
    ensures ScanRows(l, box, y) == NoGradient
    decreases y - box.y0
  {
    if y > box.y0 {
      EmptyScan(l, box, y - 1);
    }
  }

  // ---------------------------------------------------------------------
  // Normal

  /** The boundary normal at `(i, j)`, scaled by 256. The engine looks for
      BOUNDARY cells among the in-frame cells `(i-1, j-1)`, `(i, j-1)`,
      `(i-1, j)`, in that order, swaps the coordinates of the difference of
      the first two it finds and scales it to length 256 (truncating), or
      falls back to `(181, 182)` when it finds fewer than two. */
  function NormAt(mark: Plane<byte>, w: int, h: int, i: int, j: int): (n: Norm)
    requires IsGrid(mark, w, h) && InFrame(i, j, w, h)
    ensures n in {Norm(181, 182), Norm(0, 256), Norm(256, 0), Norm(181, -181)}
  {
    var a := i > 0 && j > 0 && mark[j - 1][i - 1] == BOUNDARY;
    var b := j > 0 && mark[j - 1][i] == BOUNDARY;
    var c := i > 0 && mark[j][i - 1] == BOUNDARY;
    if a && b then ScaledNorm(1, 0)
    else if a && c then ScaledNorm(0, 1)
    else if b && c then ScaledNorm(-1, 1)
    else Norm(181, 182)
  }

  /** The normal from the difference `(dx, dy)` of two neighbour cells:
      the coordinates swapped and scaled by `256 / sqrt(dx*dx + dy*dy)`,
      truncated toward zero. The differences that can occur are the three
      below; `256 / sqrt(2)` is 181.02. */
  function ScaledNorm(dx: int, dy: int): (n: Norm)
    requires (dx, dy) in {(1, 0), (0, 1), (-1, 1)}
    ensures n.normX == if dy == 0 then 0 else if dx == 0 then 256 else 181
    ensures n.normY == if dx == 0 then 0 else if dy == 0 then 256 else -181
  {
    if (dx, dy) == (1, 0) then Norm(0, 256)
    else if (dx, dy) == (0, 1) then Norm(256, 0)
    else Norm(181, -181)
  }

  /** The BOUNDARY cells among `(i-1, j-1)`, `(i, j-1)`, `(i-1, j)` that a
      row-major scan of the 2 by 2 window ending at `(i, j)` reaches before
      cell `(x, y)`. */
  function NormListed(mark: Plane<byte>, w: int, h: int, i: int, j: int, x: int, y: int): seq<(int, int)>
    requires IsGrid(mark, w, h) && InFrame(i, j, w, h)
  {
    (if i > 0 && j > 0 && mark[j - 1][i - 1] == BOUNDARY && Before(i - 1, j - 1, x, y) then [(i - 1, j - 1)] else []) +
    (if j > 0 && mark[j - 1][i] == BOUNDARY && Before(i, j - 1, x, y) then [(i, j - 1)] else []) +
    (if i > 0 && mark[j][i - 1] == BOUNDARY && Before(i - 1, j, x, y) then [(i - 1, j)] else [])
  }

  /** Only the first two BOUNDARY neighbours count: with all three present
      the normal is the one of the upper pair, and with fewer than two it is
      the fallback. */
  lemma NormNeighbours(mark: Plane<byte>, w: int, h: int, i: int, j: int)
    requires IsGrid(mark, w, h) && InFrame(i, j, w, h)
    ensures i == 0 || j == 0 ==> NormAt(mark, w, h, i, j) == Norm(181, 182)
    ensures i > 0 && j > 0 && mark[j - 1][i - 1] == BOUNDARY && mark[j - 1][i] == BOUNDARY ==>
      NormAt(mark, w, h, i, j) == Norm(0, 256)
  {
  }

  // ---------------------------------------------------------------------
  // Data term and priority

  /** The data term: the representative gradient turned by 90 degrees,
      `(gy, -gx)`, dotted with the normal, in absolute value. */
  function Data(l: Layers, wx: int, wy: int, i: int, j: int): int
    requires LayersOk(l) && InFrame(i, j, l.w, l.h)
  {
    var g := WindowGradient(l, wx, wy, i, j).grad;
    var n := NormAt(l.mark, l.w, l.h, i, j);
    Pixels.Abs(n.normX * g.gradY + n.normY * -g.gradX)
  }

  /** The priority of cell `(i, j)`: confidence term times data term. */
  function PriorityAt(l: Layers, wx: int, wy: int, i: int, j: int): int
    requires LayersOk(l) && wx >= 1 && wy >= 1 && InFrame(i, j, l.w, l.h)
  {
    Confidence(l, wx, wy, i, j) * Data(l, wx, wy, i, j)
  }

  /** The priority of every cell of the frame. */
  ghost function Priorities(l: Layers, wx: int, wy: int): (p: Plane<int>)
    requires LayersOk(l) && wx >= 1 && wy >= 1
    ensures IsGrid(p, l.w, l.h)
    ensures forall y, x :: 0 <= y < l.h && 0 <= x < l.w ==> p[y][x] == PriorityAt(l, wx, wy, x, y)
  {
    seq(l.h, y requires 0 <= y < l.h => seq(l.w, x requires 0 <= x < l.w => PriorityAt(l, wx, wy, x, y)))
  }

  /** The stored priorities `p0` once the BOUNDARY cells of the marks `g`
      inside the box `b` take their priority from `p`. */
  ghost function Refreshed(g: Plane<byte>, p: Plane<int>, b: Box, p0: Plane<int>, w: int, h: int): (r: Plane<int>)
    requires IsGrid(g, w, h) && IsGrid(p, w, h) && IsGrid(p0, w, h)
    ensures IsGrid(r, w, h)
    ensures forall y, x :: 0 <= y < h && 0 <= x < w ==>
      r[y][x] == if b.Contains(x, y) && g[y][x] == BOUNDARY then p[y][x] else p0[y][x]
  {
    seq(h, y requires 0 <= y < h => seq(w, x requires 0 <= x < w =>
      if b.Contains(x, y) && g[y][x] == BOUNDARY then p[y][x] else p0[y][x]))
  }

  /** With confidences in `[0, 2048]` a priority is never negative and fits
      a signed 32-bit `int`: the confidence term is at most 2048 and the
      data term at most 256 * 510 * 2. */
  lemma PriorityBounded(l: Layers, wx: int, wy: int, i: int, j: int)
    requires LayersOk(l) && wx >= 1 && wy >= 1 && InFrame(i, j, l.w, l.h) && ConfidBounded(l)
    ensures 0 <= PriorityAt(l, wx, wy, i, j) <= FULL_CONFIDENCE * 261120
    ensures PriorityAt(l, wx, wy, i, j) < 0x8000_0000
  {
    var c := Confidence(l, wx, wy, i, j);
    var d := Data(l, wx, wy, i, j);
    ConfidenceBounded(l, wx, wy, i, j);
    DataBounded(l, wx, wy, i, j);
    ProductMono(0, 0, c, d);
    ProductMono(c, d, FULL_CONFIDENCE, 261120);
    assert PriorityAt(l, wx, wy, i, j) == c * d;
  }

  /** The data term in the terms of the window's gradient and the normal. */
  lemma DataOf(l: Layers, wx: int, wy: int, i: int, j: int, g: Gradient, n: Norm)
    requires LayersOk(l) && InFrame(i, j, l.w, l.h)
    requires g == WindowGradient(l, wx, wy, i, j).grad && n == NormAt(l.mark, l.w, l.h, i, j)
    ensures Data(l, wx, wy, i, j) == Pixels.Abs(n.normX * g.gradY + n.normY * -g.gradX)
  {
  }

  /** The data term is at most 256 * 510 * 2. */
  lemma DataBounded(l: Layers, wx: int, wy: int, i: int, j: int)
    requires LayersOk(l) && InFrame(i, j, l.w, l.h)
    ensures 0 <= Data(l, wx, wy, i, j) <= 261120
  {
    var b := WindowGradient(l, wx, wy, i, j);
    WindowGradientIsFirstMax(l, wx, wy, i, j);
    if b.mag != 0 {
      GradientBounded(l.gray, l.w, l.h, b.x, b.y);
    }
    var g := b.grad;
    var n := NormAt(l.mark, l.w, l.h, i, j);
    Bound256(n.normX, g.gradY);
    Bound256(n.normY, -g.gradX);
  }

  lemma Bound256(n: int, g: int)
    requires -256 <= n <= 256 && -510 <= g <= 510
    ensures -130560 <= n * g <= 130560
  {
    var an := Pixels.Abs(n);
    var ag := Pixels.Abs(g);
    ProductMono(an, ag, 256, 510);
    assert an * ag == Pixels.Abs(n * g);
  }
}
