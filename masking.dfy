/** The mark-grid transformations of the set-up phase, as functions of the
    grid before the step: the one-ring dilation of the mask and the erosion
    rounds that estimate the search radius. */
module Masking {
  import opened Grid
  import opened Defs
  import opened Pixels

  /** The marks the mask gives: TARGET where the pixel is masked, SOURCE
      elsewhere. */
  function Classified(f: EngineFormat, src: Frame, mask: Frame, maskcolor: int, w: int, h: int): (g: Plane<byte>)
    requires FrameOk(f, src, w, h) && MaskOk(f, mask, w, h) && 0 <= w && 0 <= h
    ensures IsGrid(g, w, h)
    ensures forall y, x :: 0 <= y < h && 0 <= x < w ==>
      g[y][x] == if IsMasked(f, src, mask, maskcolor, w, h, x, y) then TARGET else SOURCE
  {
    seq(h, y requires 0 <= y < h => seq(w, x requires 0 <= x < w =>
      if IsMasked(f, src, mask, maskcolor, w, h, x, y) then TARGET else SOURCE))
  }

  /** Every cell is SOURCE or TARGET, as the mask classification leaves it. */
  ghost predicate OnlySourceTarget(g: Plane<byte>, w: int, h: int)
  {
    IsGrid(g, w, h) &&
    forall y, x :: 0 <= y < h && 0 <= x < w ==> g[y][x] == SOURCE || g[y][x] == TARGET
  }

  // ---------------------------------------------------------------------
  // Dilation

  /** Bit 0 (horizontal) and bit 1 (vertical) of the two's-complement
      dilation flags. */
  predicate HorizontalFlag(flags: int) { flags % 2 == 1 }

  predicate VerticalFlag(flags: int) { (flags / 2) % 2 == 1 }

  predicate HorizontalTouch(g: Plane<byte>, w: int, h: int, x: int, y: int)
    requires IsGrid(g, w, h) && InFrame(x, y, w, h)
  {
    (x + 1 < w && g[y][x + 1] == TARGET) || (x > 0 && g[y][x - 1] == TARGET)
  }

  predicate VerticalTouch(g: Plane<byte>, w: int, h: int, x: int, y: int)
    requires IsGrid(g, w, h) && InFrame(x, y, w, h)
  {
    (y + 1 < h && g[y + 1][x] == TARGET) || (y > 0 && g[y - 1][x] == TARGET)
  }

  /** A SOURCE cell joins the target region when a neighbour along an
      enabled axis was TARGET before the dilation. */
  function DilateCell(g: Plane<byte>, w: int, h: int, flags: int, x: int, y: int): byte
    requires IsGrid(g, w, h) && InFrame(x, y, w, h)
  {
    if g[y][x] == SOURCE &&
       ((HorizontalFlag(flags) && HorizontalTouch(g, w, h, x, y)) ||
        (VerticalFlag(flags) && VerticalTouch(g, w, h, x, y)))
    then TARGET
    else g[y][x]
  }

  /** The mark of a cell after the dilation passes of the enabled axes and
      before the restore pass: a SOURCE cell that joins the target region
      carries the scratch mark ERODED. */
  function Tagged(g: Plane<byte>, w: int, h: int, horizontal: bool, vertical: bool, x: int, y: int): byte
    requires IsGrid(g, w, h) && InFrame(x, y, w, h)
  {
    if g[y][x] == SOURCE &&
       ((horizontal && HorizontalTouch(g, w, h, x, y)) || (vertical && VerticalTouch(g, w, h, x, y)))
    then ERODED
    else g[y][x]
  }

  /** The grid after the one-ring dilation. */
  function Dilated(g: Plane<byte>, w: int, h: int, flags: int): (d: Plane<byte>)
    requires IsGrid(g, w, h)
    ensures IsGrid(d, w, h)
    ensures forall y, x :: 0 <= y < h && 0 <= x < w ==> d[y][x] == DilateCell(g, w, h, flags, x, y)
  {
    seq(h, y requires 0 <= y < h => seq(w, x requires 0 <= x < w => DilateCell(g, w, h, flags, x, y)))
  }

  /** The dilation only grows the target region, by at most one cell along
      an enabled axis, never cascades, and leaves no scratch marks. */
  lemma {:induction false} DilatedGrowsOneRing(g: Plane<byte>, w: int, h: int, flags: int)
    requires OnlySourceTarget(g, w, h)
    ensures OnlySourceTarget(Dilated(g, w, h, flags), w, h)
    ensures forall y, x {:trigger Dilated(g, w, h, flags)[y][x]} :: 0 <= y < h && 0 <= x < w ==>
      (g[y][x] == TARGET ==> Dilated(g, w, h, flags)[y][x] == TARGET) &&
      (Dilated(g, w, h, flags)[y][x] == TARGET && g[y][x] == SOURCE <==>
         g[y][x] == SOURCE &&
         ((HorizontalFlag(flags) && ((x + 1 < w && g[y][x + 1] == TARGET) || (x > 0 && g[y][x - 1] == TARGET))) ||
          (VerticalFlag(flags) && ((y + 1 < h && g[y + 1][x] == TARGET) || (y > 0 && g[y - 1][x] == TARGET)))))
  {
    var d := Dilated(g, w, h, flags);
    forall y, x | 0 <= y < h && 0 <= x < w
      ensures d[y][x] == SOURCE || d[y][x] == TARGET
    {
      assert d[y][x] == DilateCell(g, w, h, flags, x, y);
    }
  }

  /** Dilating a single TARGET pixel in both directions adds exactly its four
      neighbours, and no diagonal one. */
  lemma {:induction false} DilateIsolatedPixel(g: Plane<byte>, w: int, h: int, px: int, py: int)
    requires IsGrid(g, w, h) && InFrame(px, py, w, h)
    requires forall y, x :: 0 <= y < h && 0 <= x < w ==> g[y][x] == (if (x, y) == (px, py) then TARGET else SOURCE)
    ensures forall y, x :: 0 <= y < h && 0 <= x < w ==>
      (Dilated(g, w, h, 3)[y][x] == TARGET <==>
         (x, y) == (px, py) || (x == px && (y == py - 1 || y == py + 1)) || (y == py && (x == px - 1 || x == px + 1)))
  {
    var d := Dilated(g, w, h, 3);
    assert HorizontalFlag(3) && VerticalFlag(3);
    forall y, x | 0 <= y < h && 0 <= x < w
      ensures d[y][x] == TARGET <==>
         (x, y) == (px, py) || (x == px && (y == py - 1 || y == py + 1)) || (y == py && (x == px - 1 || x == px + 1))
    {
      assert d[y][x] == DilateCell(g, w, h, 3, x, y);
      assert HorizontalTouch(g, w, h, x, y) <==> y == py && (x == px - 1 || x == px + 1);
      assert VerticalTouch(g, w, h, x, y) <==> x == px && (y == py - 1 || y == py + 1);
    }
  }

  /** The restore loop that ends the dilation, as the source writes it, run
      on the flat row-major mark buffer `m` of a frame `w` cells wide: the
      first `j` passes. Each pass scans the first row only (the row pointer
      is never advanced) and then adds `w` to the byte `m[j]`, wrapping
      modulo 256. */
  function RestoreAsWritten(m: seq<byte>, w: nat, j: nat): (r: seq<byte>)
    requires w <= |m| && j <= |m|
    ensures |r| == |m|
    ensures forall k :: w <= k < |m| && j <= k ==> r[k] == m[k]
    decreases j
  {
    if j == 0 then m
    else
      var prev := RestoreAsWritten(m, w, j - 1);
      var row0 := seq(|m|, k requires 0 <= k < |m| => if k < w && prev[k] == ERODED then TARGET else prev[k]);
      row0[j - 1 := ((row0[j - 1] as int + w) % 256) as byte]
  }

  /** The restore loop as intended: every ERODED mark becomes TARGET again. */
  function RestoreIntended(m: seq<byte>): (r: seq<byte>)
    ensures |r| == |m|
    ensures forall k :: 0 <= k < |m| ==> r[k] != ERODED
    ensures forall k :: 0 <= k < |m| ==> (r[k] == TARGET <==> m[k] == TARGET || m[k] == ERODED)
  {
    seq(|m|, k requires 0 <= k < |m| => if m[k] == ERODED then TARGET else m[k])
  }

  /** On a 2 by 2 frame whose lower-left cell was dilated, the restore loop
      as written leaves that cell ERODED and turns the two SOURCE cells of
      the first row into the value 2, which reads as BOUNDARY; the intended
      restore yields SOURCE, SOURCE, TARGET, SOURCE. */
  lemma DilateRestoreBug()
    ensures RestoreAsWritten([SOURCE, SOURCE, ERODED, SOURCE], 2, 2) == [BOUNDARY, BOUNDARY, ERODED, SOURCE]
    ensures RestoreIntended([SOURCE, SOURCE, ERODED, SOURCE]) == [SOURCE, SOURCE, TARGET, SOURCE]
  {
    var m: seq<byte> := [SOURCE, SOURCE, ERODED, SOURCE];
    var r1 := RestoreAsWritten(m, 2, 1);
    assert RestoreAsWritten(m, 2, 0) == m;
    assert r1 == [BOUNDARY, SOURCE, ERODED, SOURCE];
    var r2 := RestoreAsWritten(m, 2, 2);
    assert r2 == [BOUNDARY, BOUNDARY, ERODED, SOURCE];
    var ri := RestoreIntended(m);
    assert ri[2] == TARGET;
    assert ri == [SOURCE, SOURCE, TARGET, SOURCE];
  }

  /** The marks at the end of the mask set-up: the classification,
      dilated when any dilation flag is given. */
  function SetupMarks(f: EngineFormat, src: Frame, mask: Frame, maskcolor: int, flags: int, w: int, h: int): (g: Plane<byte>)
    requires FrameOk(f, src, w, h) && MaskOk(f, mask, w, h) && 0 <= w && 0 <= h
    ensures OnlySourceTarget(g, w, h)
  {
    var c := Classified(f, src, mask, maskcolor, w, h);
    if flags != 0 then
      DilatedGrowsOneRing(c, w, h, flags);
      Dilated(c, w, h, flags)
    else c
  }

  // ---------------------------------------------------------------------
  // Erosion

  predicate IsTarget(v: byte) { v == TARGET }

  /** A mark that lets a TARGET neighbour erode: SOURCE, or eroded in an
      earlier round. */
  predicate IsEroding(v: byte) { v == SOURCE || v == ERODED }

  /** Cells are SOURCE, TARGET or ERODED: the grid between erosion rounds. */
  ghost predicate ErosionGrid(g: Plane<byte>, w: int, h: int)
  {
    IsGrid(g, w, h) &&
    forall y, x :: 0 <= y < h && 0 <= x < w ==> g[y][x] == SOURCE || g[y][x] == TARGET || g[y][x] == ERODED
  }

  ghost predicate HasTarget(g: Plane<byte>, w: int, h: int)
    requires IsGrid(g, w, h)
  {
    exists y, x :: 0 <= y < h && 0 <= x < w && g[y][x] == TARGET
  }

  ghost predicate HasEroding(g: Plane<byte>, w: int, h: int)
    requires IsGrid(g, w, h)
  {
    exists y, x :: 0 <= y < h && 0 <= x < w && IsEroding(g[y][x])
  }

  /** The erosion ends: there is something to erode from, or nothing left. */
  ghost predicate Erodible(g: Plane<byte>, w: int, h: int)
  {
    ErosionGrid(g, w, h) && (HasEroding(g, w, h) || !HasTarget(g, w, h))
  }

  /** A TARGET cell erodes in this round: an in-frame 4-neighbour is SOURCE
      or was eroded in an earlier round. */
  predicate ErodesAt(g: Plane<byte>, w: int, h: int, x: int, y: int)
    requires IsGrid(g, w, h) && InFrame(x, y, w, h)
  {
    g[y][x] == TARGET &&
    ((x > 0 && IsEroding(g[y][x - 1])) || (x + 1 < w && IsEroding(g[y][x + 1])) ||
     (y > 0 && IsEroding(g[y - 1][x])) || (y + 1 < h && IsEroding(g[y + 1][x])))
  }

  /** The mark of a cell at the end of a round. */
  function ErodeCell(g: Plane<byte>, w: int, h: int, x: int, y: int): byte
    requires IsGrid(g, w, h) && InFrame(x, y, w, h)
  {
    if ErodesAt(g, w, h, x, y) then ERODED else g[y][x]
  }

  /** The mark of a cell once its row is scanned, before the round ends. */
  function PendingCell(g: Plane<byte>, w: int, h: int, x: int, y: int): byte
    requires IsGrid(g, w, h) && InFrame(x, y, w, h)
  {
    if ErodesAt(g, w, h, x, y) then ERODEDNEXT else g[y][x]
  }

  /** One erosion round, applied to all cells at once. */
  function Eroded(g: Plane<byte>, w: int, h: int): (e: Plane<byte>)
    requires IsGrid(g, w, h)
    ensures IsGrid(e, w, h)
    ensures forall y, x :: 0 <= y < h && 0 <= x < w ==> e[y][x] == ErodeCell(g, w, h, x, y)
  {
    seq(h, y requires 0 <= y < h => seq(w, x requires 0 <= x < w => ErodeCell(g, w, h, x, y)))
  }

  /** With no TARGET cell left a round changes nothing. */
  lemma NothingToErode(g: Plane<byte>, w: int, h: int)
    requires IsGrid(g, w, h) && !HasTarget(g, w, h)
    ensures Eroded(g, w, h) == g
  {
    var e := Eroded(g, w, h);
    forall y, x | 0 <= y < h && 0 <= x < w ensures e[y][x] == g[y][x] {
      assert !ErodesAt(g, w, h, x, y);
    }
    PlaneEq(e, g, w, h);
  }

  /** While TARGET cells and SOURCE or eroded cells coexist, some TARGET cell
      touches one of the latter, so every round erodes something. */
  lemma {:induction false} FrontierExists(g: Plane<byte>, w: int, h: int)
    requires ErosionGrid(g, w, h) && HasTarget(g, w, h) && HasEroding(g, w, h)
    ensures exists y, x :: 0 <= y < h && 0 <= x < w && ErodesAt(g, w, h, x, y)
  {
    var ty, tx :| 0 <= ty < h && 0 <= tx < w && g[ty][tx] == TARGET;
    var sy, sx :| 0 <= sy < h && 0 <= sx < w && IsEroding(g[sy][sx]);
    FrontierOf(g, IsTarget, w, h, tx, ty, sx, sy);
    var y, x :| 0 <= y < h && 0 <= x < w && OnEdgeOf(g, IsTarget, w, h, x, y);
    assert ErodesAt(g, w, h, x, y);
  }

  /** A round keeps the grid an erosion grid, keeps every SOURCE or eroded
      cell, and strictly reduces the number of TARGET cells while some are left. */
  lemma {:induction false} ErodeShrinks(g: Plane<byte>, w: int, h: int)
    requires Erodible(g, w, h) && HasTarget(g, w, h)
    ensures Erodible(Eroded(g, w, h), w, h)
    ensures CountIf(Eroded(g, w, h), IsTarget) < CountIf(g, IsTarget)
  {
    var e := Eroded(g, w, h);
    FrontierExists(g, w, h);
    var y, x :| 0 <= y < h && 0 <= x < w && ErodesAt(g, w, h, x, y);
    assert e[y][x] == ERODED;
    assert HasEroding(e, w, h);
    CountStrict(g, e, IsTarget, w, x, y);
  }

  /** Number of erosion rounds the radius estimate runs: rounds continue
      while a TARGET cell is left, and the final round finds none. */
  ghost function ErosionRounds(g: Plane<byte>, w: int, h: int): (n: nat)
    requires Erodible(g, w, h)
    ensures n >= 1
    decreases CountIf(g, IsTarget)
  {
    if !HasTarget(g, w, h) then 1
    else
      ErodeShrinks(g, w, h);
      1 + ErosionRounds(Eroded(g, w, h), w, h)
  }

  /** A single round exactly when there was nothing to erode, and never more
      rounds than TARGET cells plus one. */
  lemma {:induction false} ErosionRoundsBound(g: Plane<byte>, w: int, h: int)
    requires Erodible(g, w, h)
    ensures ErosionRounds(g, w, h) == 1 <==> !HasTarget(g, w, h)
    ensures ErosionRounds(g, w, h) <= CountIf(g, IsTarget) + 1
    decreases CountIf(g, IsTarget)
  {
    if HasTarget(g, w, h) {
      ErodeShrinks(g, w, h);
      ErosionRoundsBound(Eroded(g, w, h), w, h);
    }
  }
}
