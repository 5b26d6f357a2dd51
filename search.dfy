/** The donor side of a fill step: which cells may centre a donor patch,
    the masked sum of absolute differences between a target window and a
    donor window, and the box the donor search scans. */
module Search {
  import opened Grid
  import opened Defs
  import opened Pixels

  /** The running minimum starts here; a donor whose SAD reaches it is
      never chosen. */
  const MIN_INITIAL: int := 99999999

  /** The grids the search reads: layout and planes of the picture, the mark
      grid, the frame size and the half-window sizes. */
  datatype Scene = Scene(f: EngineFormat, fr: Frame, mark: Plane<byte>, w: int, h: int, wx: int, wy: int)

  ghost predicate SceneOk(s: Scene)
  {
    s.w >= 2 && s.h >= 2 && s.wx >= 1 && s.wy >= 1 &&
    FrameOk(s.f, s.fr, s.w, s.h) && IsGrid(s.mark, s.w, s.h)
  }

  /** The window `[i - wx, i + wx) x [j - wy, j + wy)` lies in the frame. */
  predicate WindowInFrame(w: int, h: int, wx: int, wy: int, i: int, j: int)
  {
    wx <= i <= w - wx && wy <= j <= h - wy
  }

  /** `(i, j)` may centre a donor patch: its whole window is in the frame
      and SOURCE. */
  predicate DonorAt(mark: Plane<byte>, w: int, h: int, wx: int, wy: int, i: int, j: int)
    requires IsGrid(mark, w, h)
  {
    WindowInFrame(w, h, wx, wy, i, j) &&
    forall y, x :: j - wy <= y < j + wy && i - wx <= x < i + wx ==> mark[y][x] == SOURCE
  }

  /** The contribution of offset `(dx, dy)`: the channel distance between
      the target cell `(x + dx, y + dy)` and the donor cell `(i + dx, j + dy)`
      when the target cell is in the frame and SOURCE, and nothing else. */
  function Term(s: Scene, x: int, y: int, i: int, j: int, dx: int, dy: int): (t: nat)
    requires SceneOk(s) && WindowInFrame(s.w, s.h, s.wx, s.wy, i, j)
    requires -s.wx <= dx < s.wx && -s.wy <= dy < s.wy
    ensures t <= 765
  {
    var tx, ty := x + dx, y + dy;
    if InFrame(tx, ty, s.w, s.h) && s.mark[ty][tx] == SOURCE then
      CellDiff(s.f, s.fr, s.w, s.h, tx, ty, i + dx, j + dy)
    else 0
  }

  /** The terms of the offsets `[-wx, dx)` of row offset `dy`. */
  function RowSad(s: Scene, x: int, y: int, i: int, j: int, dy: int, dx: int): int
    requires SceneOk(s) && WindowInFrame(s.w, s.h, s.wx, s.wy, i, j)
    requires -s.wy <= dy < s.wy && -s.wx <= dx <= s.wx
    decreases dx + s.wx
  {
    if dx == -s.wx then 0 else RowSad(s, x, y, i, j, dy, dx - 1) + Term(s, x, y, i, j, dx - 1, dy)
  }

  /** First row offset of the target window that lies in the frame. */
  function FirstRow(s: Scene, y: int): int { Max(-s.wy, -y) }

  /** The rows of row offsets `[FirstRow, dy)`. */
  function RowsSad(s: Scene, x: int, y: int, i: int, j: int, dy: int): int
    requires SceneOk(s) && WindowInFrame(s.w, s.h, s.wx, s.wy, i, j)
    requires FirstRow(s, y) <= dy <= s.wy
    decreases dy - FirstRow(s, y)
  {
    if dy == FirstRow(s, y) then 0 else RowsSad(s, x, y, i, j, dy - 1) + RowSad(s, x, y, i, j, dy - 1, s.wx)
  }

  /** The masked SAD of the target window of `(x, y)` against the donor
      window of `(i, j)`: the rows of the target window inside the frame,
      every column offset of each row. */
  function Sad(s: Scene, x: int, y: int, i: int, j: int): int
    requires SceneOk(s) && WindowInFrame(s.w, s.h, s.wx, s.wy, i, j) && 0 <= y < s.h
  {
    RowsSad(s, x, y, i, j, Min(s.wy, s.h - y))
  }

  lemma {:induction false} RowSadBounded(s: Scene, x: int, y: int, i: int, j: int, dy: int, dx: int)
    requires SceneOk(s) && WindowInFrame(s.w, s.h, s.wx, s.wy, i, j)
    requires -s.wy <= dy < s.wy && -s.wx <= dx <= s.wx
    ensures 0 <= RowSad(s, x, y, i, j, dy, dx) <= 765 * (dx + s.wx)
    decreases dx + s.wx
  {
    if dx > -s.wx {
      RowSadBounded(s, x, y, i, j, dy, dx - 1);
    }
  }

  lemma {:induction false} RowsSadBounded(s: Scene, x: int, y: int, i: int, j: int, dy: int)
    requires SceneOk(s) && WindowInFrame(s.w, s.h, s.wx, s.wy, i, j)
    requires FirstRow(s, y) <= dy <= s.wy
    ensures 0 <= RowsSad(s, x, y, i, j, dy) <= 765 * (2 * s.wx) * (dy - FirstRow(s, y))
    decreases dy - FirstRow(s, y)
  {
    if dy > FirstRow(s, y) {
      var k := 765 * (2 * s.wx);
      var n := dy - FirstRow(s, y);
      var a := RowsSad(s, x, y, i, j, dy - 1);
      var r := RowSad(s, x, y, i, j, dy - 1, s.wx);
      RowsSadBounded(s, x, y, i, j, dy - 1);
      RowSadBounded(s, x, y, i, j, dy - 1, s.wx);
      assert 0 <= a <= k * (n - 1) && 0 <= r <= k;
      assert k * (n - 1) + k == k * n;
      assert RowsSad(s, x, y, i, j, dy) == a + r;
    }
  }

  /** A SAD is never negative and at most 765 per cell of the window. */
  lemma SadBounded(s: Scene, x: int, y: int, i: int, j: int)
    requires SceneOk(s) && WindowInFrame(s.w, s.h, s.wx, s.wy, i, j) && 0 <= y < s.h
    ensures 0 <= Sad(s, x, y, i, j) <= 765 * (2 * s.wx) * (2 * s.wy)
  {
    var n := Min(s.wy, s.h - y) - FirstRow(s, y);
    RowsSadBounded(s, x, y, i, j, Min(s.wy, s.h - y));
    var k := 765 * (2 * s.wx);
    ProductMono(k, n, k, 2 * s.wy);
  }

  /** A donor window compared with itself has SAD zero. */
  lemma {:induction false} SadSelf(s: Scene, x: int, y: int)
    requires SceneOk(s) && WindowInFrame(s.w, s.h, s.wx, s.wy, x, y)
    ensures Sad(s, x, y, x, y) == 0
  {
    forall dy, dx | -s.wy <= dy < s.wy && -s.wx <= dx <= s.wx
      ensures RowSad(s, x, y, x, y, dy, dx) == 0
    {
      RowSadSelf(s, x, y, dy, dx);
    }
    RowsSadSelf(s, x, y, Min(s.wy, s.h - y));
  }

  lemma {:induction false} RowSadSelf(s: Scene, x: int, y: int, dy: int, dx: int)
    requires SceneOk(s) && WindowInFrame(s.w, s.h, s.wx, s.wy, x, y)
    requires -s.wy <= dy < s.wy && -s.wx <= dx <= s.wx
    ensures RowSad(s, x, y, x, y, dy, dx) == 0
    decreases dx + s.wx
  {
    if dx > -s.wx {
      RowSadSelf(s, x, y, dy, dx - 1);
    }
  }

  lemma {:induction false} RowsSadSelf(s: Scene, x: int, y: int, dy: int)
    requires SceneOk(s) && WindowInFrame(s.w, s.h, s.wx, s.wy, x, y)
    requires FirstRow(s, y) <= dy <= s.wy
    requires forall dy', dx :: -s.wy <= dy' < s.wy && -s.wx <= dx <= s.wx ==> RowSad(s, x, y, x, y, dy', dx) == 0
    ensures RowsSad(s, x, y, x, y, dy) == 0
    decreases dy - FirstRow(s, y)
  {
    if dy > FirstRow(s, y) {
      RowsSadSelf(s, x, y, dy - 1);
    }
  }

  /** The centres the search scans: the box of Chebyshev radius `radius`
      around `(x, y)`, half-open on the high side and clipped to the frame,
      or the whole frame when `radius` is not positive. */
  function SearchBox(x: int, y: int, radius: int, w: int, h: int): (b: Box)
    requires 0 <= w && 0 <= h
    ensures b.Within(w, h)
    ensures radius <= 0 ==> forall i, j :: b.Contains(i, j) <==> InFrame(i, j, w, h)
    ensures radius > 0 ==> forall i, j :: b.Contains(i, j) <==>
      InFrame(i, j, w, h) && x - radius <= i < x + radius && y - radius <= j < y + radius
  {
    if radius > 0 then Window(x, y, radius, radius, w, h) else Box(0, w, 0, h)
  }

  /** With windows of at most 130000 cells no SAD reaches the initial
      minimum (765 * 130000 < 99999999), so every donor in the box is a
      candidate. */
  lemma SmallWindowsAlwaysCompete(s: Scene, x: int, y: int, i: int, j: int)
    requires SceneOk(s) && WindowInFrame(s.w, s.h, s.wx, s.wy, i, j) && 0 <= y < s.h
    requires (2 * s.wx) * (2 * s.wy) <= 130000
    ensures Sad(s, x, y, i, j) < MIN_INITIAL
  {
    SadBounded(s, x, y, i, j);
    assert 765 * (2 * s.wx) * (2 * s.wy) == 765 * ((2 * s.wx) * (2 * s.wy));
  }
}
