/** The fill front: which not-yet-filled cells are BOUNDARY, as first drawn
    and as repaired around a patch that was just filled. */
module Frontier {
  import opened Grid
  import opened Defs

  predicate IsNotSource(v: byte) { v != SOURCE }

  /** Cell `(x, y)` lies on a frame edge or has a SOURCE 4-neighbour. The
      edge tests come first, so no cell outside the frame is read. */
  predicate TouchesSource(g: Plane<byte>, w: int, h: int, x: int, y: int)
    requires IsGrid(g, w, h) && InFrame(x, y, w, h)
  {
    y == h - 1 || y == 0 || x == 0 || x == w - 1 ||
    g[y - 1][x] == SOURCE || g[y][x - 1] == SOURCE || g[y][x + 1] == SOURCE || g[y + 1][x] == SOURCE
  }

  /** Every cell is SOURCE, TARGET or BOUNDARY, and a cell that is not
      SOURCE is BOUNDARY exactly when it touches the source region or the
      frame edge. */
  ghost predicate BoundaryRule(g: Plane<byte>, w: int, h: int)
  {
    IsGrid(g, w, h) &&
    forall y, x :: 0 <= y < h && 0 <= x < w ==>
      IsCellMark(g[y][x]) && (g[y][x] != SOURCE ==> (g[y][x] == BOUNDARY <==> TouchesSource(g, w, h, x, y)))
  }

  /** `a` and `b` have the same SOURCE cells. */
  ghost predicate SameSources(a: Plane<byte>, b: Plane<byte>, w: int, h: int)
  {
    IsGrid(a, w, h) && IsGrid(b, w, h) &&
    forall y, x :: 0 <= y < h && 0 <= x < w ==> (a[y][x] == SOURCE <==> b[y][x] == SOURCE)
  }

  lemma SameTouch(a: Plane<byte>, b: Plane<byte>, w: int, h: int)
    requires SameSources(a, b, w, h)
    ensures forall y, x :: 0 <= y < h && 0 <= x < w ==> (TouchesSource(a, w, h, x, y) <==> TouchesSource(b, w, h, x, y))
  {
    forall y, x | 0 <= y < h && 0 <= x < w
      ensures TouchesSource(a, w, h, x, y) <==> TouchesSource(b, w, h, x, y)
    {
      if !(y == h - 1 || y == 0 || x == 0 || x == w - 1) {
        assert a[y - 1][x] == SOURCE <==> b[y - 1][x] == SOURCE;
        assert a[y + 1][x] == SOURCE <==> b[y + 1][x] == SOURCE;
        assert a[y][x - 1] == SOURCE <==> b[y][x - 1] == SOURCE;
        assert a[y][x + 1] == SOURCE <==> b[y][x + 1] == SOURCE;
      }
    }
  }

  /** The mark of a cell after the first boundary drawing. */
  function BoundaryCell(g: Plane<byte>, w: int, h: int, x: int, y: int): byte
    requires IsGrid(g, w, h) && InFrame(x, y, w, h)
  {
    if g[y][x] == TARGET && TouchesSource(g, w, h, x, y) then BOUNDARY else g[y][x]
  }

  /** The grid after the first boundary drawing. */
  function Bordered(g: Plane<byte>, w: int, h: int): (b: Plane<byte>)
    requires IsGrid(g, w, h)
    ensures IsGrid(b, w, h)
    ensures forall y, x :: 0 <= y < h && 0 <= x < w ==> b[y][x] == BoundaryCell(g, w, h, x, y)
  {
    seq(h, y requires 0 <= y < h => seq(w, x requires 0 <= x < w => BoundaryCell(g, w, h, x, y)))
  }

  /** Drawing the boundary on a grid of SOURCE and TARGET cells establishes
      the boundary rule and fills nothing. */
  lemma BorderedRule(g: Plane<byte>, w: int, h: int)
    requires IsGrid(g, w, h)
    requires forall y, x :: 0 <= y < h && 0 <= x < w ==> g[y][x] == SOURCE || g[y][x] == TARGET
    ensures BoundaryRule(Bordered(g, w, h), w, h)
    ensures SameSources(g, Bordered(g, w, h), w, h)
  {
    var b := Bordered(g, w, h);
    assert SameSources(g, b, w, h);
    SameTouch(g, b, w, h);
  }

  /** Grids with the same SOURCE cells have as many cells left to fill. */
  lemma SameSourcesCount(a: Plane<byte>, b: Plane<byte>, w: int, h: int)
    requires SameSources(a, b, w, h)
    ensures CountIf(a, IsNotSource) == CountIf(b, IsNotSource)
  {
    CountMono(a, b, IsNotSource, w);
    CountMono(b, a, IsNotSource, w);
  }

  /** The mark of a cell after the first pass of the boundary repair of
      the window `b`: every cell of the window that is not SOURCE is TARGET. */
  function ClearCell(g: Plane<byte>, w: int, h: int, b: Box, x: int, y: int): byte
    requires IsGrid(g, w, h) && InFrame(x, y, w, h)
  {
    if b.Contains(x, y) && g[y][x] != SOURCE then TARGET else g[y][x]
  }

  /** The mark of a cell after the boundary repair of the window
      `[x0, x1) x [y0, y1)`: a cell of the window that is not SOURCE is
      relabelled from scratch; SOURCE cells and cells outside keep theirs. */
  function RelabelCell(g: Plane<byte>, w: int, h: int, x0: int, x1: int, y0: int, y1: int, x: int, y: int): byte
    requires IsGrid(g, w, h) && InFrame(x, y, w, h)
  {
    if x0 <= x < x1 && y0 <= y < y1 && g[y][x] != SOURCE then
      (if TouchesSource(g, w, h, x, y) then BOUNDARY else TARGET)
    else g[y][x]
  }

  function Relabelled(g: Plane<byte>, w: int, h: int, x0: int, x1: int, y0: int, y1: int): (r: Plane<byte>)
    requires IsGrid(g, w, h)
    ensures IsGrid(r, w, h)
    ensures forall y, x :: 0 <= y < h && 0 <= x < w ==> r[y][x] == RelabelCell(g, w, h, x0, x1, y0, y1, x, y)
  {
    seq(h, y requires 0 <= y < h => seq(w, x requires 0 <= x < w => RelabelCell(g, w, h, x0, x1, y0, y1, x, y)))
  }

  /** `g1` is `g0` with some cells of the box `[ux0, ux1) x [uy0, uy1)` filled. */
  ghost predicate FilledWithin(g0: Plane<byte>, g1: Plane<byte>, w: int, h: int, ux0: int, ux1: int, uy0: int, uy1: int)
  {
    IsGrid(g0, w, h) && IsGrid(g1, w, h) &&
    forall y, x :: 0 <= y < h && 0 <= x < w ==>
      g1[y][x] == g0[y][x] || (ux0 <= x < ux1 && uy0 <= y < uy1 && g1[y][x] == SOURCE)
  }

  /** If the boundary rule held before a patch filled cells of a box, then
      relabelling a window that reaches at least one cell beyond the box on
      every side restores the rule on the whole frame. */
  lemma {:induction false} RelabelRestoresRule(g0: Plane<byte>, g1: Plane<byte>, w: int, h: int,
                                               ux0: int, ux1: int, uy0: int, uy1: int,
                                               x0: int, x1: int, y0: int, y1: int)
    requires BoundaryRule(g0, w, h) && FilledWithin(g0, g1, w, h, ux0, ux1, uy0, uy1)
    requires x0 <= Max(ux0 - 1, 0) && Min(ux1 + 1, w) <= x1
    requires y0 <= Max(uy0 - 1, 0) && Min(uy1 + 1, h) <= y1
    ensures BoundaryRule(Relabelled(g1, w, h, x0, x1, y0, y1), w, h)
  {
    var r := Relabelled(g1, w, h, x0, x1, y0, y1);
    assert SameSources(g1, r, w, h);
    SameTouch(g1, r, w, h);
    forall y, x | 0 <= y < h && 0 <= x < w
      ensures IsCellMark(r[y][x]) && (r[y][x] != SOURCE ==> (r[y][x] == BOUNDARY <==> TouchesSource(r, w, h, x, y)))
    {
      if !(x0 <= x < x1 && y0 <= y < y1) {
        assert g1[y][x] == g0[y][x];
        if g0[y][x] != SOURCE && !(y == h - 1 || y == 0 || x == 0 || x == w - 1) {
          // no neighbour of a cell outside the window lies in the box
          assert g1[y - 1][x] == g0[y - 1][x];
          assert g1[y + 1][x] == g0[y + 1][x];
          assert g1[y][x - 1] == g0[y][x - 1];
          assert g1[y][x + 1] == g0[y][x + 1];
          assert TouchesSource(g1, w, h, x, y) == TouchesSource(g0, w, h, x, y);
        }
      } else if g1[y][x] == SOURCE {
      } else {
        assert g1[y][x] == g0[y][x];
      }
    }
  }

  /** Under the boundary rule a frame with an unfilled cell has a BOUNDARY
      cell: either every cell is unfilled and the corner is on the edge, or
      an unfilled cell touches a filled one. */
  lemma {:induction false} BoundaryExists(g: Plane<byte>, w: int, h: int, tx: int, ty: int)
    requires BoundaryRule(g, w, h) && InFrame(tx, ty, w, h) && g[ty][tx] != SOURCE
    ensures exists y, x :: 0 <= y < h && 0 <= x < w && g[y][x] == BOUNDARY
  {
    if g[0][0] != SOURCE {
      assert TouchesSource(g, w, h, 0, 0);
      assert g[0][0] == BOUNDARY;
    } else {
      FrontierOf(g, IsNotSource, w, h, tx, ty, 0, 0);
      var y, x :| 0 <= y < h && 0 <= x < w && OnEdgeOf(g, IsNotSource, w, h, x, y);
      assert TouchesSource(g, w, h, x, y);
      assert g[y][x] == BOUNDARY;
    }
  }
}
