/** The inpainting engine: the per-cell grids it keeps for one frame size
    and the steps of a run, from the gray image and the mask to the fill
    loop. The caller's pixel planes are parameters of the steps that use
    them; each is an array of rows, one pitch of bytes per row. */
module Engine {
  import opened Grid
  import opened Defs
  import opened Pixels
  import opened Masking
  import opened Frontier
  import opened Priority
  import Search
  import Patch

  class Inpainting {
    const width: int
    const height: int
    const format: EngineFormat

    /** Per-cell grids, indexed `[y, x]`: the mark, the confidence, the
        priority of BOUNDARY cells, the gray image, and whether a cell may
        centre a donor patch. */
    const mark: array2<byte>
    const confid: array2<int>
    const pri: array2<int>
    const gray: array2<byte>
    const source: array2<byte>

    var maskcolor: int
    var dilateFlags: int
    /** Half the patch width and height. */
    var winX: int
    var winY: int
    /** Half the side of the donor search box; 0 searches the whole frame. */
    var radius: int
    /** Rows `top..bottom` and columns `left..right` hold every cell that was
        TARGET when the boundary was first drawn. */
    var top: int
    var bottom: int
    var left: int
    var right: int
    /** The highest priority and its cell, or a negative value when it has
        to be searched for again. */
    var maxPri: int
    var priX: int
    var priY: int

    ghost predicate Valid()
    {
      0 <= width && 0 <= height &&
      mark.Length0 == height && mark.Length1 == width &&
      confid.Length0 == height && confid.Length1 == width &&
      pri.Length0 == height && pri.Length1 == width &&
      gray.Length0 == height && gray.Length1 == width &&
      source.Length0 == height && source.Length1 == width &&
      mark != gray && mark != source && gray != source && confid != pri
    }

    constructor (w: int, h: int, f: EngineFormat)
      requires 0 <= w && 0 <= h
      ensures Valid() && width == w && height == h && format == f
      ensures fresh(mark) && fresh(confid) && fresh(pri) && fresh(gray) && fresh(source)
    {
      width, height, format := w, h, f;
      mark := new byte[h, w];
      confid := new int[h, w];
      pri := new int[h, w];
      gray := new byte[h, w];
      source := new byte[h, w];
    }

    /** The grids the priority reads. */
    ghost function Grids(): Layers
      reads mark, confid, gray
    {
      Layers(View(mark), View(confid), View(gray), width, height)
    }

    /** The caller's planes as values. */
    ghost function Pic(main: array2<byte>, u: array2<byte>, v: array2<byte>): (fr: Frame)
      reads main, u, v
      ensures PictureOk(main, u, v) ==> FrameOk(format, fr, width, height)
    {
      Frame(View(main), View(u), View(v))
    }

    /** The caller's planes are large enough for the frame (the chroma
        planes only matter for YV12) and are distinct from each other and
        from the engine's own grids. */
    ghost predicate PictureOk(main: array2<byte>, u: array2<byte>, v: array2<byte>)
    {
      main.Length0 >= height && main.Length1 >= RowBytes(format, width) &&
      (format == YV12 ==>
         u.Length0 >= (height + 1) / 2 && u.Length1 >= (width + 1) / 2 &&
         v.Length0 >= (height + 1) / 2 && v.Length1 >= (width + 1) / 2) &&
      main != u && main != v && u != v &&
      main != mark && main != gray && main != source &&
      u != mark && u != gray && u != source &&
      v != mark && v != gray && v != source
    }

    // -------------------------------------------------------------------
    // Set-up

    /** Fills the gray grid with the luma of every pixel. */
    method Convert2Gray(main: array2<byte>, u: array2<byte>, v: array2<byte>)
      requires Valid() && PictureOk(main, u, v)
      modifies gray
      ensures GrayIsLuma(format, Pic(main, u, v), View(gray), width, height)
    {
      ghost var fr := Pic(main, u, v);
      for y := 0 to height
        invariant fr == Pic(main, u, v)
        invariant forall y', x :: 0 <= y' < y && 0 <= x < width ==> gray[y', x] == Luma(format, fr, width, height, x, y')
      {
        for x := 0 to width
          invariant forall y', x' :: 0 <= y' < y && 0 <= x' < width ==> gray[y', x'] == Luma(format, fr, width, height, x', y')
          invariant forall x' :: 0 <= x' < x ==> gray[y, x'] == Luma(format, fr, width, height, x', y)
        {
          if format == YV12 || format == YUV24 {
            gray[y, x] := main[y, ByteAt(format, x, 0)];
          } else {
            gray[y, x] := RgbLuma(main[y, ByteAt(format, x, 0)], main[y, ByteAt(format, x, 1)], main[y, ByteAt(format, x, 2)]);
          }
        }
      }
    }

    /** Cells before `(i, j)` in row-major order are classified against
        the picture `fr` and the mask: TARGET with confidence 0 when masked,
        SOURCE with full confidence otherwise. */
    ghost predicate MaskedBefore(fr: Frame, mask: Frame, j: int, i: int)
      reads this, mark, confid
      requires Valid() && FrameOk(format, fr, width, height) && MaskOk(format, mask, width, height)
    {
      forall y, x :: 0 <= y < height && 0 <= x < width && (y < j || (y == j && x < i)) ==>
        mark[y, x] == (if IsMasked(format, fr, mask, maskcolor, width, height, x, y) then TARGET else SOURCE) &&
        confid[y, x] == if mark[y, x] == TARGET then 0 else FULL_CONFIDENCE
    }

    /** Marks every masked pixel TARGET with confidence 0 and every other
        pixel SOURCE with full confidence. */
    method GetMask(main: array2<byte>, u: array2<byte>, v: array2<byte>, mask: Frame)
      requires Valid() && PictureOk(main, u, v) && MaskOk(format, mask, width, height)
      modifies mark, confid
      ensures View(mark) == Classified(format, Pic(main, u, v), mask, maskcolor, width, height)
      ensures forall y, x :: 0 <= y < height && 0 <= x < width ==>
        confid[y, x] == if mark[y, x] == TARGET then 0 else FULL_CONFIDENCE
    {
      ghost var fr := Pic(main, u, v);
      for y := 0 to height
        invariant fr == Pic(main, u, v)
        invariant MaskedBefore(fr, mask, y, 0)
      {
        MaskRow(y, main, u, v, mask, fr);
      }
      assert MaskedBefore(fr, mask, height, 0);
      PlaneEq(View(mark), Classified(format, fr, mask, maskcolor, width, height), width, height);
    }

    /** Classifies row `y`. */
    method MaskRow(y: int, main: array2<byte>, u: array2<byte>, v: array2<byte>, mask: Frame, ghost fr: Frame)
      requires Valid() && PictureOk(main, u, v) && MaskOk(format, mask, width, height) && 0 <= y < height
      requires fr == Pic(main, u, v) && MaskedBefore(fr, mask, y, 0)
      modifies mark, confid
      ensures fr == Pic(main, u, v) && MaskedBefore(fr, mask, y + 1, 0)
    {
      for x := 0 to width
        invariant fr == Pic(main, u, v)
        invariant MaskedBefore(fr, mask, y, x)
      {
        var masked := if format == RGBA then main[y, 4 * x + 3] > 127
                      else MaskKey(format, mask, width, height, x, y) == maskcolor;
        if masked {
          mark[y, x] := TARGET;
          confid[y, x] := 0;
        } else {
          mark[y, x] := SOURCE;
          confid[y, x] := FULL_CONFIDENCE;
        }
      }
    }

    /** The marks while the dilation passes run: cells before `(i, j)` in
        row-major order are as `Tagged(g0, h1, v1)` has them, the others as
        `Tagged(g0, h0, v0)`. */
    ghost predicate Staged(g0: Plane<byte>, h1: bool, v1: bool, h0: bool, v0: bool, j: int, i: int)
      reads mark
      requires Valid() && IsGrid(g0, width, height)
    {
      forall y, x :: 0 <= y < height && 0 <= x < width ==>
        mark[y, x] == if y < j || (y == j && x < i) then Tagged(g0, width, height, h1, v1, x, y)
                      else Tagged(g0, width, height, h0, v0, x, y)
    }

    /** The horizontal pass over row `j`: a SOURCE cell beside a TARGET
        cell of the same row is tagged ERODED. */
    method TagRowHorizontal(j: int, ghost g0: Plane<byte>)
      requires Valid() && OnlySourceTarget(g0, width, height) && 0 <= j < height
      requires Staged(g0, true, false, false, false, j, 0)
      modifies mark
      ensures Staged(g0, true, false, false, false, j + 1, 0)
    {
      for i := 0 to width
        invariant Staged(g0, true, false, false, false, j, i)
      {
        assert mark[j, i] == g0[j][i];
        assert i + 1 < width ==> mark[j, i + 1] == g0[j][i + 1];
        assert i > 0 ==> (mark[j, i - 1] == TARGET <==> g0[j][i - 1] == TARGET);
        if mark[j, i] == SOURCE && ((i + 1 < width && mark[j, i + 1] == TARGET) || (i > 0 && mark[j, i - 1] == TARGET)) {
          mark[j, i] := ERODED;
        }
      }
    }

    /** The vertical pass over row `j`, after the horizontal pass when
        `horizontal` holds: a SOURCE cell with a TARGET cell above or below
        is tagged ERODED. */
    method TagRowVertical(j: int, ghost g0: Plane<byte>, ghost horizontal: bool)
      requires Valid() && OnlySourceTarget(g0, width, height) && 0 <= j < height
      requires Staged(g0, horizontal, true, horizontal, false, j, 0)
      modifies mark
      ensures Staged(g0, horizontal, true, horizontal, false, j + 1, 0)
    {
      for i := 0 to width
        invariant Staged(g0, horizontal, true, horizontal, false, j, i)
      {
        assert mark[j, i] == Tagged(g0, width, height, horizontal, false, i, j);
        assert j + 1 < height ==> (mark[j + 1, i] == TARGET <==> g0[j + 1][i] == TARGET);
        assert j > 0 ==> (mark[j - 1, i] == TARGET <==> g0[j - 1][i] == TARGET);
        if mark[j, i] == SOURCE && ((j + 1 < height && mark[j + 1, i] == TARGET) || (j > 0 && mark[j - 1, i] == TARGET)) {
          mark[j, i] := ERODED;
        }
      }
    }

    /** The restore pass over row `j`: every ERODED tag becomes TARGET. */
    method RestoreRow(j: int, ghost g0: Plane<byte>, flags: int)
      requires Valid() && OnlySourceTarget(g0, width, height) && 0 <= j < height
      requires forall y, x :: 0 <= y < height && 0 <= x < width ==>
        mark[y, x] == if y < j then DilateCell(g0, width, height, flags, x, y)
                      else Tagged(g0, width, height, HorizontalFlag(flags), VerticalFlag(flags), x, y)
      modifies mark
      ensures forall y, x :: 0 <= y < height && 0 <= x < width ==>
        mark[y, x] == if y <= j then DilateCell(g0, width, height, flags, x, y)
                      else Tagged(g0, width, height, HorizontalFlag(flags), VerticalFlag(flags), x, y)
    {
      for i := 0 to width
        invariant forall y, x :: 0 <= y < height && 0 <= x < width ==>
          mark[y, x] == if y < j || (y == j && x < i) then DilateCell(g0, width, height, flags, x, y)
                        else Tagged(g0, width, height, HorizontalFlag(flags), VerticalFlag(flags), x, y)
      {
        if mark[j, i] == ERODED {
          mark[j, i] := TARGET;
        }
      }
    }

    /** Grows the target region by one cell along the axes `flags` enables:
        the enabled passes tag the SOURCE cells beside a TARGET cell with the
        scratch mark ERODED, then the tags become TARGET. */
    method Dilate(flags: int)
      requires Valid() && OnlySourceTarget(View(mark), width, height)
      modifies mark
      ensures View(mark) == Dilated(old(View(mark)), width, height, flags)
    {
      ghost var g0 := View(mark);
      var horizontal := HorizontalFlag(flags);
      var vertical := VerticalFlag(flags);
      if horizontal {
        for j := 0 to height
          invariant Staged(g0, true, false, false, false, j, 0)
        {
          TagRowHorizontal(j, g0);
        }
      }
      assert Staged(g0, horizontal, true, horizontal, false, 0, 0);
      if vertical {
        for j := 0 to height
          invariant Staged(g0, horizontal, true, horizontal, false, j, 0)
        {
          TagRowVertical(j, g0, horizontal);
        }
      }
      assert Staged(g0, horizontal, vertical, horizontal, vertical, 0, 0);
      if horizontal || vertical {
        for j := 0 to height
          invariant forall y, x :: 0 <= y < height && 0 <= x < width ==>
            mark[y, x] == if y < j then DilateCell(g0, width, height, flags, x, y)
                          else Tagged(g0, width, height, horizontal, vertical, x, y)
        {
          RestoreRow(j, g0, flags);
        }
      }
      PlaneEq(View(mark), Dilated(g0, width, height, flags), width, height);
    }
    /** The marks while a round of erosion runs on `c`: rows before `done`
        are finished, rows before `scanned` carry ERODEDNEXT on the cells
        that erode, the other rows are as `c` has them. */
    ghost predicate MidRound(c: Plane<byte>, done: int, scanned: int)
      reads mark
      requires Valid() && IsGrid(c, width, height)
    {
      forall y, x :: 0 <= y < height && 0 <= x < width ==>
        mark[y, x] == if y < done then ErodeCell(c, width, height, x, y)
                      else if y < scanned then PendingCell(c, width, height, x, y)
                      else c[y][x]
    }

    /** The marks while row `j` of a round is scanned up to column `i`. */
    ghost predicate MidRow(c: Plane<byte>, j: int, i: int)
      reads mark
      requires Valid() && IsGrid(c, width, height)
    {
      forall y, x :: 0 <= y < height && 0 <= x < width ==>
        mark[y, x] == if y < Max(j - 1, 0) then ErodeCell(c, width, height, x, y)
                      else if y < j || (y == j && x < i) then PendingCell(c, width, height, x, y)
                      else c[y][x]
    }

    /** Scans row `j` of a round: a TARGET cell with a SOURCE or earlier
        eroded 4-neighbour becomes ERODEDNEXT. Reports whether the row held
        a TARGET cell. */
    method ErodeRow(j: int, ghost c: Plane<byte>) returns (found: bool)
      requires Valid() && 0 <= j < height && ErosionGrid(c, width, height)
      requires MidRound(c, Max(j - 1, 0), j)
      modifies mark
      ensures MidRound(c, Max(j - 1, 0), j + 1)
      ensures found <==> exists x :: 0 <= x < width && c[j][x] == TARGET
    {
      found := false;
      assert MidRow(c, j, 0);
      for i := 0 to width
        invariant MidRow(c, j, i)
        invariant found <==> exists x :: 0 <= x < i && c[j][x] == TARGET
      {
        var target := ErodeAt(j, i, c);
        found := found || target;
      }
      assert MidRow(c, j, width);
    }

    /** Scans cell `(i, j)`: the cells to its left and above already hold
        their pending marks, which are eroding exactly where the round's
        grid `c` is, so the test reads as on `c`. */
    method ErodeAt(j: int, i: int, ghost c: Plane<byte>) returns (target: bool)
      requires Valid() && 0 <= j < height && 0 <= i < width && ErosionGrid(c, width, height)
      requires MidRow(c, j, i)
      modifies mark
      ensures MidRow(c, j, i + 1)
      ensures target <==> c[j][i] == TARGET
    {
      target := mark[j, i] == TARGET;
      if target {
        assert i > 0 ==> (IsEroding(mark[j, i - 1]) <==> IsEroding(c[j][i - 1]));
        assert j > 0 ==> (IsEroding(mark[j - 1, i]) <==> IsEroding(c[j - 1][i]));
        if (i > 0 && IsEroding(mark[j, i - 1])) || (i + 1 < width && IsEroding(mark[j, i + 1])) ||
           (j > 0 && IsEroding(mark[j - 1, i])) || (j + 1 < height && IsEroding(mark[j + 1, i])) {
          mark[j, i] := ERODEDNEXT;
        }
      }
    }

    /** Turns the ERODEDNEXT cells of row `r` into ERODED. */
    method PromoteRow(r: int, ghost c: Plane<byte>, ghost scanned: int)
      requires Valid() && 0 <= r < scanned <= height && ErosionGrid(c, width, height)
      requires MidRound(c, r, scanned)
      modifies mark
      ensures MidRound(c, r + 1, scanned)
    {
      for i := 0 to width
        invariant forall y, x :: 0 <= y < height && 0 <= x < width ==>
          mark[y, x] == if y < r || (y == r && x < i) then ErodeCell(c, width, height, x, y)
                        else if y < scanned then PendingCell(c, width, height, x, y)
                        else c[y][x]
      {
        if mark[r, i] == ERODEDNEXT {
          mark[r, i] := ERODED;
        }
      }
    }

    /** One erosion round, row by row in place: a cell eroded in this round
        is held as ERODEDNEXT until the row below it has been scanned, so the
        round acts as if all cells were decided at once. */
    method ErodeRound() returns (targetsExist: bool)
      requires Valid() && ErosionGrid(View(mark), width, height)
      modifies mark
      ensures View(mark) == Eroded(old(View(mark)), width, height)
      ensures targetsExist == HasTarget(old(View(mark)), width, height)
    {
      ghost var c := View(mark);
      targetsExist := false;
      if height == 0 {
        PlaneEq(View(mark), Eroded(c, width, height), width, height);
        return;
      }
      for j := 0 to height
        invariant MidRound(c, Max(j - 1, 0), j)
        invariant targetsExist <==> exists y, x :: 0 <= y < j && 0 <= x < width && c[y][x] == TARGET
      {
        var found := ErodeRow(j, c);
        targetsExist := targetsExist || found;
        if j > 0 {
          PromoteRow(j - 1, c, j + 1);
        }
      }
      PromoteRow(height - 1, c, height);
      PlaneEq(View(mark), Eroded(c, width, height), width, height);
    }

    /** Estimates the search radius as the number of erosion rounds until
        no TARGET cell is left (the last round finds none), then restores
        the marks. */
    method EstimateRadius() returns (iter: int)
      requires Valid() && width >= 2 && height >= 2
      requires OnlySourceTarget(View(mark), width, height) && Erodible(View(mark), width, height)
      modifies mark
      ensures iter == ErosionRounds(old(View(mark)), width, height)
      ensures View(mark) == old(View(mark))
    {
      ghost var g0 := View(mark);
      iter := 0;
      var targetsExist := true;
      while targetsExist
        invariant ErosionGrid(View(mark), width, height)
        invariant forall y, x :: 0 <= y < height && 0 <= x < width ==> (mark[y, x] == SOURCE <==> g0[y][x] == SOURCE)
        invariant targetsExist ==> (Erodible(View(mark), width, height) &&
          iter + ErosionRounds(View(mark), width, height) == ErosionRounds(g0, width, height))
        invariant !targetsExist ==> iter == ErosionRounds(g0, width, height)
        decreases CountIf(View(mark), IsTarget), targetsExist
      {
        ghost var c := View(mark);
        iter := iter + 1;
        targetsExist := ErodeRound();
        if targetsExist {
          ErodeShrinks(c, width, height);
        } else {
          NothingToErode(c, width, height);
        }
        forall y, x | 0 <= y < height && 0 <= x < width
          ensures mark[y, x] == SOURCE <==> c[y][x] == SOURCE
        {
          assert mark[y, x] == Eroded(c, width, height)[y][x];
        }
      }
      // restore every ERODED cell to TARGET
      assert Restoring(g0, 0, 0);
      for j := 0 to height
        invariant Restoring(g0, j, 0)
      {
        UnerodeRow(j, g0);
      }
      PlaneEq(View(mark), g0, width, height);
    }

    /** The marks while the erosion is undone: cells before `(i, j)` in
        row order are back to `g0`; the others are SOURCE, TARGET or ERODED,
        and SOURCE exactly where `g0` is. */
    ghost predicate Restoring(g0: Plane<byte>, j: int, i: int)
      reads mark
      requires Valid() && IsGrid(g0, width, height)
    {
      forall y, x :: 0 <= y < height && 0 <= x < width ==>
        if y < j || (y == j && x < i) then mark[y, x] == g0[y][x]
        else (mark[y, x] == SOURCE || mark[y, x] == TARGET || mark[y, x] == ERODED) &&
             (mark[y, x] == SOURCE <==> g0[y][x] == SOURCE)
    }

    /** Turns the ERODED cells of row `j` back into TARGET. */
    method UnerodeRow(j: int, ghost g0: Plane<byte>)
      requires Valid() && 0 <= j < height && OnlySourceTarget(g0, width, height)
      requires Restoring(g0, j, 0)
      modifies mark
      ensures Restoring(g0, j + 1, 0)
    {
      for i := 0 to width
        invariant Restoring(g0, j, i)
      {
        if mark[j, i] == ERODED {
          mark[j, i] := TARGET;
        }
      }
    }

    /** The rectangle while the boundary is drawn: it has grown from
        `(t0, b0, l0, r0)`, holds every TARGET cell of `g0` before `(i, j)`,
        and each bound is its first value or a row or column that has a
        TARGET cell. */
    ghost predicate RectCovers(g0: Plane<byte>, t0: int, b0: int, l0: int, r0: int, j: int, i: int)
      reads this
      requires IsGrid(g0, width, height)
    {
      top <= t0 && bottom >= b0 && left <= l0 && right >= r0 &&
      (forall y, x :: 0 <= y < height && (y < j || (y == j && x < i)) && 0 <= x < width && g0[y][x] == TARGET ==>
         top <= y <= bottom && left <= x <= right) &&
      (top == t0 || (0 <= top < height && exists x :: 0 <= x < width && g0[top][x] == TARGET)) &&
      (bottom == b0 || (0 <= bottom < height && exists x :: 0 <= x < width && g0[bottom][x] == TARGET)) &&
      (left == l0 || (0 <= left < width && exists y :: 0 <= y < height && g0[y][left] == TARGET)) &&
      (right == r0 || (0 <= right < width && exists y :: 0 <= y < height && g0[y][right] == TARGET))
    }

    /** The marks while the boundary is drawn: cells before `(i, j)` are
        drawn, the others as `g0` has them. */
    ghost predicate Bordering(g0: Plane<byte>, j: int, i: int)
      reads mark
      requires Valid() && IsGrid(g0, width, height)
    {
      forall y, x :: 0 <= y < height && 0 <= x < width ==>
        mark[y, x] == if y < j || (y == j && x < i) then BoundaryCell(g0, width, height, x, y) else g0[y][x]
    }

    /** Grows the rectangle to hold the TARGET cell `(i, j)`. */
    method GrowRect(j: int, i: int, ghost g0: Plane<byte>, ghost t0: int, ghost b0: int, ghost l0: int, ghost r0: int)
      requires IsGrid(g0, width, height) && 0 <= j < height && 0 <= i < width && g0[j][i] == TARGET
      requires RectCovers(g0, t0, b0, l0, r0, j, i)
      modifies `top, `bottom, `left, `right
      ensures RectCovers(g0, t0, b0, l0, r0, j, i + 1)
    {
      if i < left { left := i; }
      if i > right { right := i; }
      if j > bottom { bottom := j; }
      if j < top { top := j; }
    }

    /** Draws the boundary at cell `(i, j)`. */
    method DrawBoundaryCell(j: int, i: int, ghost g0: Plane<byte>, ghost t0: int, ghost b0: int, ghost l0: int, ghost r0: int)
      requires Valid() && IsGrid(g0, width, height) && 0 <= j < height && 0 <= i < width
      requires Bordering(g0, j, i) && RectCovers(g0, t0, b0, l0, r0, j, i)
      modifies mark, `top, `bottom, `left, `right
      ensures Bordering(g0, j, i + 1) && RectCovers(g0, t0, b0, l0, r0, j, i + 1)
    {
      if mark[j, i] == TARGET {
        GrowRect(j, i, g0, t0, b0, l0, r0);
        if j == height - 1 || j == 0 || i == 0 || i == width - 1 ||
           mark[j - 1, i] == SOURCE || mark[j, i - 1] == SOURCE || mark[j, i + 1] == SOURCE || mark[j + 1, i] == SOURCE {
          assert TouchesSource(g0, width, height, i, j);
          mark[j, i] := BOUNDARY;
        } else {
          assert !TouchesSource(g0, width, height, i, j);
        }
      } else {
        assert g0[j][i] != TARGET;
      }
    }

    /** Marks BOUNDARY every TARGET cell on the frame edge or beside a
        SOURCE cell, and grows the rectangle to hold every TARGET cell. */
    method DrawBoundary()
      requires Valid()
      modifies mark, `top, `bottom, `left, `right
      ensures View(mark) == Bordered(old(View(mark)), width, height)
      ensures RectCovers(old(View(mark)), old(top), old(bottom), old(left), old(right), height, 0)
    {
      ghost var g0 := View(mark);
      for j := 0 to height
        invariant Bordering(g0, j, 0) && RectCovers(g0, old(top), old(bottom), old(left), old(right), j, 0)
      {
        for i := 0 to width
          invariant Bordering(g0, j, i) && RectCovers(g0, old(top), old(bottom), old(left), old(right), j, i)
        {
          DrawBoundaryCell(j, i, g0, old(top), old(bottom), old(left), old(right));
        }
      }
      PlaneEq(View(mark), Bordered(g0, width, height), width, height);
    }

    /** Whether every cell of the window of `(i, j)` is SOURCE. */
    method WindowIsSource(i: int, j: int) returns (flag: bool)
      requires Valid() && Search.WindowInFrame(width, height, winX, winY, i, j)
      ensures flag <==> forall y, x :: j - winY <= y < j + winY && i - winX <= x < i + winX ==> mark[y, x] == SOURCE
    {
      flag := true;
      var y := j - winY;
      while y < j + winY
        invariant j - winY <= y <= Max(j + winY, j - winY)
        invariant flag <==> forall y', x :: j - winY <= y' < y && i - winX <= x < i + winX ==> mark[y', x] == SOURCE
        decreases j + winY - y
      {
        var x := i - winX;
        while x < i + winX
          invariant i - winX <= x <= Max(i + winX, i - winX)
          invariant flag <==> forall y', x' :: (j - winY <= y' < y || (y' == y && x' < x)) && i - winX <= x' < i + winX ==> mark[y', x'] == SOURCE
          decreases i + winX - x
        {
          if mark[y, x] != SOURCE {
            return false;
          }
          x := x + 1;
        }
        y := y + 1;
      }
    }

    /** Records which cells may centre a donor patch: those whose whole
        window lies in the frame and is SOURCE. */
    method DrawSource()
      requires Valid()
      modifies source
      ensures forall y, x :: 0 <= y < height && 0 <= x < width ==>
        source[y, x] == if Search.DonorAt(View(mark), width, height, winX, winY, x, y) then 1 else 0
    {
      for j := 0 to height
        invariant forall y, x :: 0 <= y < j && 0 <= x < width ==>
          source[y, x] == if Search.DonorAt(View(mark), width, height, winX, winY, x, y) then 1 else 0
      {
        for i := 0 to width
          invariant forall y, x :: (0 <= y < j || (y == j && 0 <= x < i)) && 0 <= x < width ==>
            source[y, x] == if Search.DonorAt(View(mark), width, height, winX, winY, x, y) then 1 else 0
        {
          if i < winX || j < winY || i > width - winX || j > height - winY {
            source[j, i] := 0;
          } else {
            var flag := WindowIsSource(i, j);
            source[j, i] := if flag then 1 else 0;
          }
        }
      }
    }

    // -------------------------------------------------------------------
    // Priority of a boundary cell

    /** The scaled isophote gradient of the gray grid at `(i, j)`. */
    function GetGradient(i: int, j: int): (g: Gradient)
      requires Valid() && width >= 2 && height >= 2 && InFrame(i, j, width, height)
      reads gray
      ensures g == GradientAt(View(gray), width, height, i, j)
    {
      if i == 0 && j == 0 then
        Gradient((gray[0, 1] as int - gray[0, 0] as int) * 2, (gray[1, 0] as int - gray[0, 0] as int) * 2)
      else if i == 0 then
        Gradient((gray[j, 1] as int - gray[j, 0] as int) + (gray[j - 1, 1] as int - gray[j - 1, 0] as int),
                 (gray[j, 0] as int - gray[j - 1, 0] as int) * 2)
      else if j == 0 then
        Gradient((gray[0, i] as int - gray[0, i - 1] as int) * 2,
                 (gray[1, i] as int - gray[0, i] as int) + (gray[1, i - 1] as int - gray[0, i - 1] as int))
      else
        Gradient((gray[j, i] as int - gray[j, i - 1] as int) + (gray[j - 1, i] as int - gray[j - 1, i - 1] as int),
                 (gray[j, i] as int - gray[j - 1, i] as int) + (gray[j, i - 1] as int - gray[j - 1, i - 1] as int))
    }

    /** The boundary normal at `(i, j)`: the scan of the 2 by 2 window that
        ends at `(i, j)` collects its BOUNDARY neighbours, and the first two
        give the normal. */
    method GetNorm(i: int, j: int) returns (n: Norm)
      requires Valid() && InFrame(i, j, width, height)
      ensures n == NormAt(View(mark), width, height, i, j)
    {
      ghost var g := View(mark);
      var found: seq<(int, int)> := [];
      var y := Max(j - 1, 0);
      while y < Min(j + 1, height)
        invariant Max(j - 1, 0) <= y <= j + 1
        invariant found == NormListed(g, width, height, i, j, Max(i - 1, 0), y)
      {
        var x := Max(i - 1, 0);
        while x < Min(i + 1, width)
          invariant Max(i - 1, 0) <= x <= i + 1
          invariant found == NormListed(g, width, height, i, j, x, y)
        {
          if !(x == i && y == j) && mark[y, x] == BOUNDARY {
            found := found + [(x, y)];
          }
          x := x + 1;
        }
        y := y + 1;
      }
      if |found| < 2 {
        n := Norm(181, 182);
      } else {
        // the difference of the first two, coordinates swapped
        var dx := found[1].0 - found[0].0;
        var dy := found[1].1 - found[0].1;
        n := ScaledNorm(dx, dy);
      }
    }

    /** The confidence term of `(i, j)`: the confidences of its clipped
        window summed row by row and divided by the full window area. */
    method ComputeConfidence(i: int, j: int) returns (c: int)
      requires Valid() && width >= 2 && height >= 2 && winX >= 1 && winY >= 1 && InFrame(i, j, width, height)
      ensures c == Confidence(Grids(), winX, winY, i, j)
      ensures ConfidBounded(Grids()) ==> 0 <= c <= FULL_CONFIDENCE
    {
      ghost var g := View(confid);
      var box := Window(i, j, winX, winY, width, height);
      var sum := 0;
      var y := box.y0;
      while y < box.y1
        invariant box.y0 <= y <= box.y1
        invariant sum == BoxSum(g, width, box.(y1 := y))
      {
        var x := box.x0;
        var row := 0;
        while x < box.x1
          invariant box.x0 <= x <= box.x1
          invariant row == RowSum(g[y], box.x0, x)
        {
          row := row + confid[y, x];
          x := x + 1;
        }
        sum := sum + row;
        y := y + 1;
      }
      var area := (winX * 2) * (winY * 2);
      c := if sum >= 0 then sum / area else -((-sum) / area);
      if ConfidBounded(Grids()) {
        ConfidenceBounded(Grids(), winX, winY, i, j);
      }
    }

    /** One cell of the gradient scan: a SOURCE cell whose in-frame
        4-neighbours are SOURCE and whose gradient is stronger than the best
        so far replaces it. */
    method ConsiderCell(x: int, y: int, grad: Gradient, magmax: int, ghost bestX: int, ghost bestY: int)
      returns (grad': Gradient, magmax': int, ghost bestX': int, ghost bestY': int)
      requires Valid() && width >= 2 && height >= 2 && InFrame(x, y, width, height)
      ensures Best(grad', magmax', bestX', bestY') == Consider(Grids(), Best(grad, magmax, bestX, bestY), x, y)
    {
      grad', magmax', bestX', bestY' := grad, magmax, bestX, bestY;
      if mark[y, x] == SOURCE {
        if (x + 1 < width && mark[y, x + 1] != SOURCE) || (x - 1 >= 0 && mark[y, x - 1] != SOURCE) ||
           (y + 1 < height && mark[y + 1, x] != SOURCE) || (y - 1 >= 0 && mark[y - 1, x] != SOURCE) {
          return;
        }
        var temp := GetGradient(x, y);
        var magnitude := temp.gradX * temp.gradX + temp.gradY * temp.gradY;
        if magnitude > magmax {
          grad', magmax', bestX', bestY' := temp, magnitude, x, y;
        }
      }
    }

    /** The data term of `(i, j)`: the strongest gradient among the window's
        cells that are SOURCE with SOURCE 4-neighbours, turned by 90 degrees
        and dotted with the normal, in absolute value. */
    method ComputeData(i: int, j: int) returns (d: int)
      requires Valid() && width >= 2 && height >= 2 && winX >= 1 && winY >= 1 && InFrame(i, j, width, height)
      ensures d == Data(Grids(), winX, winY, i, j)
      ensures 0 <= d <= 261120
    {
      ghost var l := Grids();
      var grad := ScanWindow(i, j);
      // perpendicular to the gradient: (x, y) -> (y, -x)
      var gradT := Gradient(grad.gradY, -grad.gradX);
      var nn := GetNorm(i, j);
      d := Pixels.Abs(nn.normX * gradT.gradX + nn.normY * gradT.gradY);
      DataOf(l, winX, winY, i, j, grad, nn);
      DataBounded(l, winX, winY, i, j);
    }

    /** Scans the window of `(i, j)` row by row for its representative
        gradient, the strongest at a site whose neighbours are all SOURCE. */
    method ScanWindow(i: int, j: int) returns (grad: Gradient)
      requires Valid() && width >= 2 && height >= 2 && winX >= 1 && winY >= 1 && InFrame(i, j, width, height)
      ensures grad == WindowGradient(Grids(), winX, winY, i, j).grad
    {
      ghost var l := Grids();
      var box := Window(i, j, winX, winY, width, height);
      grad := Gradient(0, 0);
      var magmax := 0;
      ghost var bestX, bestY := 0, 0;
      var y := box.y0;
      while y < box.y1
        invariant box.y0 <= y <= box.y1
        invariant Best(grad, magmax, bestX, bestY) == ScanRows(l, box, y)
      {
        grad, magmax, bestX, bestY := ScanCells(box, y, grad, magmax, bestX, bestY);
        y := y + 1;
      }
      assert WindowGradient(l, winX, winY, i, j) == ScanRows(l, box, box.y1);
    }

    /** Scans row `y` of the window `box`, left to right, from the best
        gradient found so far. */
    method ScanCells(box: Box, y: int, grad: Gradient, magmax: int, ghost bestX: int, ghost bestY: int)
      returns (grad': Gradient, magmax': int, ghost bestX': int, ghost bestY': int)
      requires Valid() && width >= 2 && height >= 2 && box.Within(width, height) && box.x0 <= box.x1 && box.y0 <= y < box.y1
      ensures Best(grad', magmax', bestX', bestY') == ScanRow(Grids(), Best(grad, magmax, bestX, bestY), y, box.x0, box.x1)
    {
      ghost var l := Grids();
      grad', magmax', bestX', bestY' := grad, magmax, bestX, bestY;
      var x := box.x0;
      while x < box.x1
        invariant box.x0 <= x <= box.x1
        invariant Best(grad', magmax', bestX', bestY') == ScanRow(l, Best(grad, magmax, bestX, bestY), y, box.x0, x)
      {
        grad', magmax', bestX', bestY' := ConsiderCell(x, y, grad', magmax', bestX', bestY');
        x := x + 1;
      }
    }

    /** The priority of `(i, j)`: confidence term times data term. */
    method CellPriority(i: int, j: int) returns (p: int)
      requires Valid() && width >= 2 && height >= 2 && winX >= 1 && winY >= 1 && InFrame(i, j, width, height)
      ensures p == PriorityAt(Grids(), winX, winY, i, j)
      ensures ConfidBounded(Grids()) ==> 0 <= p <= FULL_CONFIDENCE * 261120
    {
      var c := ComputeConfidence(i, j);
      var d := ComputeData(i, j);
      p := c * d;
      if ConfidBounded(Grids()) {
        PriorityBounded(Grids(), winX, winY, i, j);
      }
    }

    // -------------------------------------------------------------------
    // The fill loop

    /** Cell `(x, y)` lies in the rectangle of the first TARGET cells. */
    ghost predicate InRect(x: int, y: int)
      reads `top, `bottom, `left, `right
    {
      top <= y <= bottom && left <= x <= right
    }

    /** The rows and the columns of the rectangle, when there are any, lie
        in the frame. */
    ghost predicate RectInFrame()
      reads `top, `bottom, `left, `right
    {
      (top <= bottom ==> 0 <= top && bottom < height) && (left <= right ==> 0 <= left && right < width)
    }

    /** The row-major scan of the rectangle, up to `(ci, cj)`, has found
        the first highest priority `m` of a BOUNDARY cell at `(px, py)`, or
        nothing above -1. */
    ghost predicate HighestSoFar(m: int, px: int, py: int, cj: int, ci: int)
      reads this, mark, pri
      requires Valid() && RectInFrame()
    {
      m >= -1 &&
      (forall y, x :: InRect(x, y) && Before(x, y, ci, cj) && mark[y, x] == BOUNDARY ==> pri[y, x] <= m) &&
      (m == -1 ==> px == left && py == top) &&
      (m != -1 ==>
         InRect(px, py) && Before(px, py, ci, cj) && mark[py, px] == BOUNDARY && pri[py, px] == m &&
         forall y, x :: InRect(x, y) && Before(x, y, px, py) && mark[y, x] == BOUNDARY ==> pri[y, x] < m)
    }

    /** Finds the BOUNDARY cell of the rectangle with the highest stored
        priority, the first in row-major order, and records it; -1 and the
        rectangle's corner when no stored priority exceeds -1. */
    method HighestPriority() returns (m: int)
      requires Valid() && RectInFrame()
      modifies `priX, `priY
      ensures m >= -1
      ensures forall y, x :: InRect(x, y) && mark[y, x] == BOUNDARY ==> pri[y, x] <= m
      ensures m == -1 ==> priX == left && priY == top
      ensures m != -1 ==>
        InRect(priX, priY) && mark[priY, priX] == BOUNDARY && pri[priY, priX] == m &&
        forall y, x :: InRect(x, y) && Before(x, y, priX, priY) && mark[y, x] == BOUNDARY ==> pri[y, x] < m
    {
      var maxPri1 := -1;
      // offsets from the rectangle's corner
      var px1, py1 := 0, 0;
      var jm := bottom - top + 1;
      var im := right - left + 1;
      var j := 0;
      while j < jm
        invariant 0 <= j <= Max(jm, 0)
        invariant HighestSoFar(maxPri1, px1 + left, py1 + top, top + j, left)
      {
        var i := 0;
        while i < im
          invariant 0 <= i <= Max(im, 0)
          invariant HighestSoFar(maxPri1, px1 + left, py1 + top, top + j, left + i)
        {
          if mark[top + j, left + i] == BOUNDARY && pri[top + j, left + i] > maxPri1 {
            maxPri1 := pri[top + j, left + i];
            px1, py1 := i, j;
          }
          i := i + 1;
        }
        assert forall y, x :: InRect(x, y) ==> (Before(x, y, left + Max(im, 0), top + j) <==> Before(x, y, left, top + j + 1));
        j := j + 1;
      }
      assert forall y, x :: InRect(x, y) ==> Before(x, y, left, top + Max(jm, 0));
      priX := px1 + left;
      priY := py1 + top;
      m := maxPri1;
    }

    /** Whether a cell of the rectangle is still to be filled. */
    method TargetExist() returns (b: bool)
      requires Valid() && RectInFrame()
      ensures b <==> exists y, x :: InRect(x, y) && mark[y, x] != SOURCE
    {
      var j := top;
      while j <= bottom
        invariant top <= j <= Max(bottom + 1, top)
        invariant forall y, x :: top <= y < j && left <= x <= right ==> mark[y, x] == SOURCE
      {
        var i := left;
        while i <= right
          invariant left <= i <= Max(right + 1, left)
          invariant forall y, x :: (top <= y < j || (y == j && x < i)) && left <= x <= right ==> mark[y, x] == SOURCE
        {
          if mark[j, i] != SOURCE {
            return true;
          }
          i := i + 1;
        }
        j := j + 1;
      }
      return false;
    }

    /** The marks while the boundary repair of the window `b` runs: the
        first pass has cleared the cells before `(ci, cj)`, or, in the second
        pass, relabelled them and cleared all others. */
    ghost predicate Relabeling(g0: Plane<byte>, b: Box, second: bool, cj: int, ci: int)
      reads mark
      requires Valid() && IsGrid(g0, width, height)
    {
      forall y, x :: 0 <= y < height && 0 <= x < width ==>
        mark[y, x] == if Before(x, y, ci, cj) then
                        (if second then RelabelCell(g0, width, height, b.x0, b.x1, b.y0, b.y1, x, y) else ClearCell(g0, width, height, b, x, y))
                      else
                        (if second then ClearCell(g0, width, height, b, x, y) else g0[y][x])
    }

    /** The first pass of the repair over row `y` of the window. */
    method ClearRow(y: int, b: Box, ghost g0: Plane<byte>)
      requires Valid() && IsGrid(g0, width, height) && b.Within(width, height) && b.x0 <= b.x1 && b.y0 <= y < b.y1
      requires Relabeling(g0, b, false, y, b.x0)
      modifies mark
      ensures Relabeling(g0, b, false, y + 1, b.x0)
    {
      for x := b.x0 to b.x1
        invariant Relabeling(g0, b, false, y, x)
      {
        if mark[y, x] != SOURCE {
          mark[y, x] := TARGET;
        }
      }
    }

    /** The second pass of the repair over row `y` of the window. */
    method RelabelRow(y: int, b: Box, ghost g0: Plane<byte>)
      requires Valid() && IsGrid(g0, width, height) && b.Within(width, height) && b.x0 <= b.x1 && b.y0 <= y < b.y1
      requires Relabeling(g0, b, true, y, b.x0)
      modifies mark
      ensures Relabeling(g0, b, true, y + 1, b.x0)
    {
      for x := b.x0 to b.x1
        invariant Relabeling(g0, b, true, y, x)
      {
        if mark[y, x] == TARGET {
          if y == height - 1 || y == 0 || x == 0 || x == width - 1 ||
             mark[y - 1, x] == SOURCE || mark[y, x - 1] == SOURCE || mark[y, x + 1] == SOURCE || mark[y + 1, x] == SOURCE {
            assert TouchesSource(g0, width, height, x, y);
            mark[y, x] := BOUNDARY;
          } else {
            assert !TouchesSource(g0, width, height, x, y);
          }
        }
      }
    }

    /** Repairs the boundary around a patch just filled at `(i, j)`: within
        two cells beyond its window every cell still to fill becomes TARGET,
        then BOUNDARY where it touches the source region or the frame edge. */
    method UpdateBoundary(i: int, j: int)
      requires Valid() && InFrame(i, j, width, height) && winX >= 0 && winY >= 0
      modifies mark
      ensures var b := Window(i, j, winX + 2, winY + 2, width, height);
        View(mark) == Relabelled(old(View(mark)), width, height, b.x0, b.x1, b.y0, b.y1)
    {
      ghost var g0 := View(mark);
      var b := Window(i, j, winX + 2, winY + 2, width, height);
      for y := b.y0 to b.y1
        invariant Relabeling(g0, b, false, y, b.x0)
      {
        ClearRow(y, b, g0);
      }
      assert Relabeling(g0, b, true, b.y0, b.x0);
      for y := b.y0 to b.y1
        invariant Relabeling(g0, b, true, y, b.x0)
      {
        RelabelRow(y, b, g0);
      }
      PlaneEq(View(mark), Relabelled(g0, width, height, b.x0, b.x1, b.y0, b.y1), width, height);
    }

    /** The scan of the priority refresh over the BOUNDARY cells of the
        window `b` of the marks `g`, whose priorities are `p`, up to
        `(ci, cj)`: the scanned cells hold their priority; `hit` tells
        whether one reached `m0`, the maximum when the scan began, and then
        `r` is the running maximum, held by the last cell that reached it;
        otherwise nothing was recorded. */
    ghost predicate PriScan(g: Plane<byte>, p: Plane<int>, b: Box, pri0: Plane<int>, m0: int, x0: int, y0: int,
                            hit: bool, r: int, cj: int, ci: int)
      reads this, pri
      requires Valid() && IsGrid(g, width, height) && IsGrid(p, width, height) && IsGrid(pri0, width, height)
      requires b.Within(width, height)
    {
      (forall y, x :: 0 <= y < height && 0 <= x < width ==>
         pri[y, x] == if b.Contains(x, y) && g[y][x] == BOUNDARY && Before(x, y, ci, cj) then p[y][x] else pri0[y][x]) &&
      (!hit ==> forall y, x :: b.Contains(x, y) && g[y][x] == BOUNDARY && Before(x, y, ci, cj) ==> p[y][x] < m0) &&
      (hit ==>
         r == maxPri && r >= m0 && b.Contains(priX, priY) && g[priY][priX] == BOUNDARY && Before(priX, priY, ci, cj) &&
         p[priY][priX] == r &&
         (forall y, x :: b.Contains(x, y) && g[y][x] == BOUNDARY && Before(x, y, ci, cj) ==> p[y][x] <= r) &&
         (forall y, x :: b.Contains(x, y) && g[y][x] == BOUNDARY && Before(x, y, ci, cj) && Before(priX, priY, x, y) ==>
            p[y][x] < r)) &&
      (!hit ==> r == -1 && maxPri == m0 && priX == x0 && priY == y0)
    }

    /** Stores the priority `q` of the BOUNDARY cell `(x, y)` and takes it
        as the new maximum when it reaches the current one. */
    method RecordPri(ghost g: Plane<byte>, ghost p: Plane<int>, b: Box, x: int, y: int, q: int,
                     ghost pri0: Plane<int>, ghost m0: int, ghost x0: int, ghost y0: int, ghost hit: bool, r: int)
      returns (ghost hit': bool, r': int)
      requires Valid() && IsGrid(g, width, height) && IsGrid(p, width, height) && IsGrid(pri0, width, height)
      requires b.Within(width, height) && b.Contains(x, y) && g[y][x] == BOUNDARY && q == p[y][x]
      requires PriScan(g, p, b, pri0, m0, x0, y0, hit, r, y, x)
      modifies pri, `maxPri, `priX, `priY
      ensures PriScan(g, p, b, pri0, m0, x0, y0, hit', r', y, x + 1)
    {
      hit', r' := hit, r;
      pri[y, x] := q;
      if q >= maxPri {
        r' := q;
        maxPri := q;
        priX := x;
        priY := y;
        hit' := true;
      }
    }

    /** One cell of the priority refresh. */
    method UpdatePriCell(ghost g: Plane<byte>, ghost p: Plane<int>, b: Box, x: int, y: int,
                         ghost pri0: Plane<int>, ghost m0: int, ghost x0: int, ghost y0: int, ghost hit: bool, r: int)
      returns (ghost hit': bool, r': int)
      requires Valid() && width >= 2 && height >= 2 && winX >= 1 && winY >= 1 && b.Within(width, height)
      requires g == View(mark) && p == Priorities(Grids(), winX, winY) && IsGrid(pri0, width, height) && b.Contains(x, y)
      requires PriScan(g, p, b, pri0, m0, x0, y0, hit, r, y, x)
      modifies pri, `maxPri, `priX, `priY
      ensures Grids() == old(Grids())
      ensures PriScan(g, p, b, pri0, m0, x0, y0, hit', r', y, x + 1)
    {
      if mark[y, x] == BOUNDARY {
        var q := CellPriority(x, y);
        assert g[y][x] == BOUNDARY && q == p[y][x];
        hit', r' := RecordPri(g, p, b, x, y, q, pri0, m0, x0, y0, hit, r);
      } else {
        hit', r' := hit, r;
        assert forall y', x' :: b.Contains(x', y') && g[y'][x'] == BOUNDARY ==> (Before(x', y', x, y) <==> Before(x', y', x + 1, y));
      }
    }

    /** The outcome of a priority refresh of the BOUNDARY cells of the
        window `b` of the marks `g`, whose priorities are `p`, that began
        with the maximum `m0` at `(x0, y0)`: when one of them reaches `m0`,
        `r` and the maximum are the highest of them, held by the last cell
        in row-major order that reaches it; otherwise `r` is -1 and the
        maximum and its cell are unchanged. */
    ghost predicate MaxRefreshed(g: Plane<byte>, p: Plane<int>, b: Box, m0: int, x0: int, y0: int, r: int)
      reads this
      requires IsGrid(g, width, height) && IsGrid(p, width, height) && b.Within(width, height)
    {
      if exists y, x :: b.Contains(x, y) && g[y][x] == BOUNDARY && p[y][x] >= m0 then
        r == maxPri && r >= m0 && b.Contains(priX, priY) && g[priY][priX] == BOUNDARY && p[priY][priX] == r &&
        (forall y, x :: b.Contains(x, y) && g[y][x] == BOUNDARY ==> p[y][x] <= r) &&
        (forall y, x :: b.Contains(x, y) && g[y][x] == BOUNDARY && Before(priX, priY, x, y) ==> p[y][x] < r)
      else
        r == -1 && maxPri == m0 && priX == x0 && priY == y0
    }

    /** Refreshes the stored priority of every BOUNDARY cell within three
        cells beyond the window of `(i, j)`. When one of them reaches the
        current maximum, the maximum becomes the highest of them, held by the
        last cell in row-major order that reaches it, and is returned;
        otherwise -1 is returned and the maximum is left alone. */
    method UpdatePri(i: int, j: int) returns (r: int)
      requires Valid() && width >= 2 && height >= 2 && winX >= 1 && winY >= 1 && InFrame(i, j, width, height)
      modifies pri, `maxPri, `priX, `priY
      ensures winX == old(winX) && winY == old(winY)
      ensures View(pri) == Refreshed(old(View(mark)), old(Priorities(Grids(), winX, winY)),
        Window(i, j, winX + 3, winY + 3, width, height), old(View(pri)), width, height)
      ensures var b, g, p := Window(i, j, winX + 3, winY + 3, width, height), old(View(mark)), old(Priorities(Grids(), winX, winY));
        MaxRefreshed(g, p, b, old(maxPri), old(priX), old(priY), r)
    {
      var b := Window(i, j, winX + 3, winY + 3, width, height);
      ghost var g := View(mark);
      ghost var p := Priorities(Grids(), winX, winY);
      ghost var pri0 := View(pri);
      r := RefreshWindow(g, p, b, pri0);
      assert b == Window(i, j, winX + 3, winY + 3, width, height);
      assert g == old(View(mark)) && p == old(Priorities(Grids(), winX, winY)) && pri0 == old(View(pri));
    }

    /** The loops of the priority refresh over the window `b`. */
    method RefreshWindow(ghost g: Plane<byte>, ghost p: Plane<int>, b: Box, ghost pri0: Plane<int>) returns (r: int)
      requires Valid() && width >= 2 && height >= 2 && winX >= 1 && winY >= 1 && b.Within(width, height) && b.y0 <= b.y1 && b.x0 <= b.x1
      requires g == View(mark) && p == Priorities(Grids(), winX, winY) && pri0 == View(pri)
      modifies pri, `maxPri, `priX, `priY
      ensures View(pri) == Refreshed(g, p, b, pri0, width, height)
      ensures MaxRefreshed(g, p, b, old(maxPri), old(priX), old(priY), r)
    {
      ghost var hit := false;
      r := -1;
      ghost var m0, x0, y0 := maxPri, priX, priY;
      for y := b.y0 to b.y1
        invariant g == View(mark) && p == Priorities(Grids(), winX, winY)
        invariant PriScan(g, p, b, pri0, m0, x0, y0, hit, r, y, b.x0)
      {
        hit, r := UpdatePriRow(g, p, b, y, pri0, m0, x0, y0, hit, r);
      }
      PriScanDone(g, p, b, pri0, m0, x0, y0, hit, r);
    }

    /** The scan of the whole window. */
    lemma PriScanDone(g: Plane<byte>, p: Plane<int>, b: Box, pri0: Plane<int>, m0: int, x0: int, y0: int, hit: bool, r: int)
      requires Valid() && IsGrid(g, width, height) && IsGrid(p, width, height) && IsGrid(pri0, width, height)
      requires b.Within(width, height) && b.y0 <= b.y1
      requires PriScan(g, p, b, pri0, m0, x0, y0, hit, r, b.y1, b.x0)
      ensures View(pri) == Refreshed(g, p, b, pri0, width, height)
      ensures MaxRefreshed(g, p, b, m0, x0, y0, r)
    {
      assert forall y', x' :: b.Contains(x', y') ==> Before(x', y', b.x0, b.y1);
      PlaneEq(View(pri), Refreshed(g, p, b, pri0, width, height), width, height);
    }

    /** The priority refresh over row `y` of the window. */
    method UpdatePriRow(ghost g: Plane<byte>, ghost p: Plane<int>, b: Box, y: int,
                        ghost pri0: Plane<int>, ghost m0: int, ghost x0: int, ghost y0: int, ghost hit: bool, r: int)
      returns (ghost hit': bool, r': int)
      requires Valid() && width >= 2 && height >= 2 && winX >= 1 && winY >= 1 && b.Within(width, height)
      requires g == View(mark) && p == Priorities(Grids(), winX, winY) && IsGrid(pri0, width, height)
      requires b.x0 <= b.x1 && b.y0 <= y < b.y1
      requires PriScan(g, p, b, pri0, m0, x0, y0, hit, r, y, b.x0)
      modifies pri, `maxPri, `priX, `priY
      ensures PriScan(g, p, b, pri0, m0, x0, y0, hit', r', y + 1, b.x0)
    {
      hit', r' := hit, r;
      for x := b.x0 to b.x1
        invariant g == View(mark) && p == Priorities(Grids(), winX, winY)
        invariant PriScan(g, p, b, pri0, m0, x0, y0, hit', r', y, x)
      {
        hit', r' := UpdatePriCell(g, p, b, x, y, pri0, m0, x0, y0, hit', r');
      }
      PriRowDone(g, p, b, y, pri0, m0, x0, y0, hit', r');
    }

    /** The scan up to the end of row `y` is the scan up to the start of
        row `y + 1`. */
    lemma PriRowDone(g: Plane<byte>, p: Plane<int>, b: Box, y: int, pri0: Plane<int>, m0: int, x0: int, y0: int, hit: bool, r: int)
      requires Valid() && IsGrid(g, width, height) && IsGrid(p, width, height) && IsGrid(pri0, width, height)
      requires b.Within(width, height) && b.x0 <= b.x1
      requires PriScan(g, p, b, pri0, m0, x0, y0, hit, r, y, b.x1)
      ensures PriScan(g, p, b, pri0, m0, x0, y0, hit, r, y + 1, b.x0)
    {
      assert forall y', x' :: b.Contains(x', y') ==> (Before(x', y', b.x1, y) <==> Before(x', y', b.x0, y + 1));
    }

    // -------------------------------------------------------------------
    // Donor search

    /** Every cell recorded as a donor centre still centres a window that
        lies in the frame and is wholly SOURCE. */
    ghost predicate DonorsOk()
      reads this, mark, source
      requires Valid()
    {
      forall y, x :: 0 <= y < height && 0 <= x < width && source[y, x] != 0 ==>
        Search.DonorAt(View(mark), width, height, winX, winY, x, y)
    }

    /** What the donor search reads: the layout and planes of the picture,
        the marks, the frame size and the half-window sizes. */
    ghost function Scene(main: array2<byte>, u: array2<byte>, v: array2<byte>): (s: Search.Scene)
      reads this, mark, main, u, v
      ensures s.f == format && s.fr == Pic(main, u, v) && s.mark == View(mark)
      ensures s.w == width && s.h == height && s.wx == winX && s.wy == winY
      ensures Valid() && PictureOk(main, u, v) && width >= 2 && height >= 2 && winX >= 1 && winY >= 1 ==> Search.SceneOk(s)
    {
      Search.Scene(format, Pic(main, u, v), View(mark), width, height, winX, winY)
    }

    /** The channel distance of the pixels `(tx, ty)` and `(sx, sy)`. */
    function Diff(main: array2<byte>, u: array2<byte>, v: array2<byte>, tx: int, ty: int, sx: int, sy: int): (d: int)
      reads main, u, v
      requires Valid() && PictureOk(main, u, v) && InFrame(tx, ty, width, height) && InFrame(sx, sy, width, height)
      ensures d == CellDiff(format, Pic(main, u, v), width, height, tx, ty, sx, sy)
    {
      if format == YV12 then
        Abs(main[ty, tx] as int - main[sy, sx] as int) +
        Abs(u[ty / 2, tx / 2] as int - u[sy / 2, sx / 2] as int) +
        Abs(v[ty / 2, tx / 2] as int - v[sy / 2, sx / 2] as int)
      else
        Abs(main[ty, ByteAt(format, tx, 0)] as int - main[sy, ByteAt(format, sx, 0)] as int) +
        Abs(main[ty, ByteAt(format, tx, 1)] as int - main[sy, ByteAt(format, sx, 1)] as int) +
        Abs(main[ty, ByteAt(format, tx, 2)] as int - main[sy, ByteAt(format, sx, 2)] as int)
    }

    /** Adds to `sum0` the terms of row offset `dy` of the comparison of the
        target window of `(x, y)` with the donor window of `(i, j)`. Near a
        side of the frame the columns outside it are skipped; elsewhere
        every column is computed and masked by its mark. */
    method AddRowSad(x: int, y: int, i: int, j: int, dy: int, main: array2<byte>, u: array2<byte>, v: array2<byte>, sum0: int)
      returns (sum: int)
      requires Valid() && PictureOk(main, u, v) && width >= 2 && height >= 2 && winX >= 1 && winY >= 1
      requires Search.WindowInFrame(width, height, winX, winY, i, j)
      requires -winY <= dy < winY && 0 <= y + dy < height
      ensures sum == sum0 + Search.RowSad(Scene(main, u, v), x, y, i, j, dy, winX)
    {
      if x - winX < 0 || x + winX > width {
        sum := AddBorderRowSad(x, y, i, j, dy, main, u, v, sum0);
      } else {
        sum := AddMiddleRowSad(x, y, i, j, dy, main, u, v, sum0);
      }
    }

    /** The SAD term of the offset `(dx, dy)` whose target pixel is in the
        frame: the channel distance when that pixel is SOURCE, else 0. */
    method SourceTerm(x: int, y: int, i: int, j: int, dx: int, dy: int, main: array2<byte>, u: array2<byte>, v: array2<byte>)
      returns (term: int)
      requires Valid() && PictureOk(main, u, v) && width >= 2 && height >= 2 && winX >= 1 && winY >= 1
      requires Search.WindowInFrame(width, height, winX, winY, i, j)
      requires -winX <= dx < winX && -winY <= dy < winY && InFrame(x + dx, y + dy, width, height)
      ensures term == Search.Term(Scene(main, u, v), x, y, i, j, dx, dy)
    {
      var tx, ty := x + dx, y + dy;
      term := 0;
      if mark[ty, tx] == SOURCE {
        term := Diff(main, u, v, tx, ty, i + dx, j + dy);
      }
    }

    /** The row terms near a side of the frame. */
    method AddBorderRowSad(x: int, y: int, i: int, j: int, dy: int, main: array2<byte>, u: array2<byte>, v: array2<byte>, sum0: int)
      returns (sum: int)
      requires Valid() && PictureOk(main, u, v) && width >= 2 && height >= 2 && winX >= 1 && winY >= 1
      requires Search.WindowInFrame(width, height, winX, winY, i, j)
      requires -winY <= dy < winY && 0 <= y + dy < height
      ensures sum == sum0 + Search.RowSad(Scene(main, u, v), x, y, i, j, dy, winX)
    {
      ghost var s := Scene(main, u, v);
      sum := sum0;
      var dx := -winX;
      while dx < winX
        invariant -winX <= dx <= winX
        invariant sum == sum0 + Search.RowSad(s, x, y, i, j, dy, dx)
      {
        var tx := x + dx;
        if 0 <= tx < width {
          var term := SourceTerm(x, y, i, j, dx, dy, main, u, v);
          sum := sum + term;
        } else {
          assert Search.Term(s, x, y, i, j, dx, dy) == 0;
        }
        assert Search.RowSad(s, x, y, i, j, dy, dx + 1) == Search.RowSad(s, x, y, i, j, dy, dx) + Search.Term(s, x, y, i, j, dx, dy);
        dx := dx + 1;
      }
    }

    /** The row terms away from the sides: every column is in the frame. */
    method AddMiddleRowSad(x: int, y: int, i: int, j: int, dy: int, main: array2<byte>, u: array2<byte>, v: array2<byte>, sum0: int)
      returns (sum: int)
      requires Valid() && PictureOk(main, u, v) && width >= 2 && height >= 2 && winX >= 1 && winY >= 1
      requires Search.WindowInFrame(width, height, winX, winY, i, j)
      requires -winY <= dy < winY && 0 <= y + dy < height && winX <= x <= width - winX
      ensures sum == sum0 + Search.RowSad(Scene(main, u, v), x, y, i, j, dy, winX)
    {
      ghost var s := Scene(main, u, v);
      sum := sum0;
      var dx := -winX;
      while dx < winX
        invariant -winX <= dx <= winX
        invariant sum == sum0 + Search.RowSad(s, x, y, i, j, dy, dx)
      {
        var term := SourceTerm(x, y, i, j, dx, dy, main, u, v);
        sum := sum + term;
        assert Search.RowSad(s, x, y, i, j, dy, dx + 1) == Search.RowSad(s, x, y, i, j, dy, dx) + Search.Term(s, x, y, i, j, dx, dy);
        dx := dx + 1;
      }
    }

    /** The masked SAD of the target window of `(x, y)` against the donor
        window of `(i, j)`, over the rows of the target window in the frame. */
    method WindowSad(x: int, y: int, i: int, j: int, main: array2<byte>, u: array2<byte>, v: array2<byte>) returns (sum: int)
      requires Valid() && PictureOk(main, u, v) && width >= 2 && height >= 2 && winX >= 1 && winY >= 1
      requires Search.WindowInFrame(width, height, winX, winY, i, j) && 0 <= y < height
      ensures sum == Search.Sad(Scene(main, u, v), x, y, i, j)
    {
      ghost var s := Scene(main, u, v);
      sum := 0;
      var dy := Max(-winY, -y);
      while dy < Min(winY, height - y)
        invariant Search.FirstRow(s, y) <= dy <= Min(winY, height - y)
        invariant sum == Search.RowsSad(s, x, y, i, j, dy)
      {
        sum := AddRowSad(x, y, i, j, dy, main, u, v, sum);
        dy := dy + 1;
      }
    }

    /** The centres of `b` scanned before `(ci, cj)` that are recorded
        donors have a SAD of at least `best`; when `best` is below the
        initial minimum, `(px, py)` is the first of them that attains it. */
    ghost predicate SearchSoFar(s: Search.Scene, b: Box, x: int, y: int, best: int, px: int, py: int, cj: int, ci: int)
      reads this, mark, source
      requires Valid() && DonorsOk() && Search.SceneOk(s) && s.w == width && s.h == height && s.wx == winX && s.wy == winY
      requires b.Within(width, height) && 0 <= y < height
    {
      best <= Search.MIN_INITIAL &&
      (forall j, i :: b.Contains(i, j) && Before(i, j, ci, cj) && source[j, i] != 0 ==> Search.Sad(s, x, y, i, j) >= best) &&
      (best < Search.MIN_INITIAL ==>
         b.Contains(px, py) && Before(px, py, ci, cj) && source[py, px] != 0 && Search.Sad(s, x, y, px, py) == best &&
         forall j, i :: b.Contains(i, j) && Before(i, j, px, py) && source[j, i] != 0 ==> Search.Sad(s, x, y, i, j) > best)
    }

    /** One centre of the donor search: a recorded donor whose SAD is below
        the running minimum becomes the new minimum. */
    method ConsiderDonor(x: int, y: int, i: int, j: int, main: array2<byte>, u: array2<byte>, v: array2<byte>,
                         ghost s: Search.Scene, ghost b: Box, min: int, px: int, py: int)
      returns (min': int, px': int, py': int)
      requires Valid() && PictureOk(main, u, v) && width >= 2 && height >= 2 && winX >= 1 && winY >= 1
      requires DonorsOk() && s == Scene(main, u, v) && b.Within(width, height) && b.Contains(i, j) && 0 <= y < height
      requires SearchSoFar(s, b, x, y, min, px, py, j, i)
      ensures SearchSoFar(s, b, x, y, min', px', py', j, i + 1)
    {
      min', px', py' := min, px, py;
      if source[j, i] != 0 {
        var sum := WindowSad(x, y, i, j, main, u, v);
        if sum < min {
          min', px', py' := sum, i, j;
        }
      }
    }

    /** `(px, py)` is the donor the search settles on: a recorded donor
        centre of `b` whose SAD is below the initial minimum and the least
        of all, and the first in row-major order with that SAD. */
    ghost predicate BestDonor(s: Search.Scene, b: Box, x: int, y: int, px: int, py: int)
      reads this, mark, source
      requires Valid() && DonorsOk() && Search.SceneOk(s) && s.w == width && s.h == height && s.wx == winX && s.wy == winY
      requires b.Within(width, height) && 0 <= y < height
    {
      b.Contains(px, py) && source[py, px] != 0 && Search.Sad(s, x, y, px, py) < Search.MIN_INITIAL &&
      (forall j, i :: b.Contains(i, j) && source[j, i] != 0 ==> Search.Sad(s, x, y, px, py) <= Search.Sad(s, x, y, i, j)) &&
      (forall j, i :: b.Contains(i, j) && Before(i, j, px, py) && source[j, i] != 0 ==>
         Search.Sad(s, x, y, px, py) < Search.Sad(s, x, y, i, j))
    }

    /** No recorded donor centre in the search box of `(x, y)` has a SAD
        below the initial minimum, so `PatchTexture` finds no donor there. */
    ghost predicate NoDonor(main: array2<byte>, u: array2<byte>, v: array2<byte>, x: int, y: int)
      requires Valid() && PictureOk(main, u, v) && width >= 2 && height >= 2 && winX >= 1 && winY >= 1
      requires InFrame(x, y, width, height) && DonorsOk()
      reads this, mark, confid, pri, gray, source, main, u, v
    {
      var s, b := Scene(main, u, v), Search.SearchBox(x, y, radius, width, height);
      forall j, i :: b.Contains(i, j) && source[j, i] != 0 ==> Search.Sad(s, x, y, i, j) >= Search.MIN_INITIAL
    }

    /** The stored cell of highest priority is left to fill in the marks
        `g`, and no donor is found for it. */
    ghost predicate Stalled(main: array2<byte>, u: array2<byte>, v: array2<byte>, g: Plane<byte>)
      requires Valid() && PictureOk(main, u, v) && width >= 2 && height >= 2 && winX >= 1 && winY >= 1 && DonorsOk()
      requires IsGrid(g, width, height)
      reads this, mark, confid, pri, gray, source, main, u, v
    {
      InFrame(priX, priY, width, height) && g[priY][priX] != SOURCE && NoDonor(main, u, v, priX, priY)
    }

    /** Looks for the donor window most like the target window of `(x, y)`
        among the recorded donor centres of the search box. A donor is found
        exactly when one of them has a SAD below the initial minimum; it is
        then the one with the least SAD, the first in row-major order on a
        tie, and its window is wholly SOURCE. */
    method PatchTexture(x: int, y: int, main: array2<byte>, u: array2<byte>, v: array2<byte>)
      returns (found: bool, patchX: int, patchY: int)
      requires Valid() && PictureOk(main, u, v) && width >= 2 && height >= 2 && winX >= 1 && winY >= 1
      requires InFrame(x, y, width, height) && DonorsOk()
      ensures var s, b := Scene(main, u, v), Search.SearchBox(x, y, radius, width, height);
        found <==> exists j, i :: b.Contains(i, j) && source[j, i] != 0 && Search.Sad(s, x, y, i, j) < Search.MIN_INITIAL
      ensures found ==> BestDonor(Scene(main, u, v), Search.SearchBox(x, y, radius, width, height), x, y, patchX, patchY)
      ensures found ==> Search.DonorAt(View(mark), width, height, winX, winY, patchX, patchY)
    {
      ghost var s := Scene(main, u, v);
      var b := Search.SearchBox(x, y, radius, width, height);
      assert b.Contains(x, y);
      var min := Search.MIN_INITIAL;
      patchX, patchY := 0, 0;
      for j := b.y0 to b.y1
        invariant SearchSoFar(s, b, x, y, min, patchX, patchY, j, b.x0)
      {
        for i := b.x0 to b.x1
          invariant SearchSoFar(s, b, x, y, min, patchX, patchY, j, i)
        {
          min, patchX, patchY := ConsiderDonor(x, y, i, j, main, u, v, s, b, min, patchX, patchY);
        }
        assert forall j', i' :: b.Contains(i', j') ==> (Before(i', j', b.x1, j) <==> Before(i', j', b.x0, j + 1));
      }
      assert forall j', i' :: b.Contains(i', j') ==> Before(i', j', b.x0, b.y1);
      found := min != Search.MIN_INITIAL;
    }

    // -------------------------------------------------------------------
    // Filling a patch

    /** The grids while the cells of `b` are filled, in row-major order up
        to `(ci, cj)`, from the cells `(ox, oy)` away: the cells before it
        that were not SOURCE are SOURCE with confidence `conf` and the gray
        value of their donor cell; every other cell is as it was in `l0`. */
    ghost predicate GridsFilled(l0: Layers, b: Box, ox: int, oy: int, conf: int, cj: int, ci: int)
      reads this, mark, confid, gray
      requires Valid() && LayersOk(l0) && l0.w == width && l0.h == height && b.Within(width, height)
      requires 0 <= b.x0 + ox && b.x1 + ox <= width && 0 <= b.y0 + oy && b.y1 + oy <= height
    {
      (forall y, x :: 0 <= y < height && 0 <= x < width && b.Contains(x, y) && l0.mark[y][x] != SOURCE && Before(x, y, ci, cj) ==>
         mark[y, x] == SOURCE && confid[y, x] == conf && gray[y, x] == l0.gray[y + oy][x + ox]) &&
      (forall y, x :: 0 <= y < height && 0 <= x < width && !(b.Contains(x, y) && l0.mark[y][x] != SOURCE && Before(x, y, ci, cj)) ==>
         mark[y, x] == l0.mark[y][x] && confid[y, x] == l0.confid[y][x] && gray[y, x] == l0.gray[y][x])
    }

    /** `fr0` has the shape of the planes `main`, `u` and `v`. */
    ghost predicate Shaped(fr0: Frame, main: array2<byte>, u: array2<byte>, v: array2<byte>)
    {
      |fr0.main| == main.Length0 && |fr0.u| == u.Length0 && |fr0.v| == v.Length0 &&
      (forall y :: 0 <= y < main.Length0 ==> |fr0.main[y]| == main.Length1) &&
      (forall y :: 0 <= y < u.Length0 ==> |fr0.u[y]| == u.Length1) &&
      (forall y :: 0 <= y < v.Length0 ==> |fr0.v[y]| == v.Length1)
    }

    /** The window `b` moved by `(ox, oy)` lies in the frame and is wholly
        SOURCE in `m0`: every cell of `b` has its donor cell there. */
    ghost predicate DonorShift(m0: Plane<byte>, b: Box, ox: int, oy: int)
      requires IsGrid(m0, width, height)
    {
      0 <= b.x0 + ox && b.x1 + ox <= width && 0 <= b.y0 + oy && b.y1 + oy <= height &&
      forall y, x :: b.Contains(x, y) ==> m0[y + oy][x + ox] == SOURCE
    }

    /** The main plane while the fill of `b` proceeds, up to `(ci, cj)`:
        each byte of a filled pixel is the byte of its donor pixel in `fr0`,
        every other byte, the row padding included, is as it was. */
    ghost predicate MainFilled(fr0: Frame, m0: Plane<byte>, b: Box, ox: int, oy: int, cur: Plane<byte>, cj: int, ci: int)
      requires FrameOk(format, fr0, width, height) && IsGrid(m0, width, height) && b.Within(width, height)
      requires |cur| == |fr0.main| && forall y :: 0 <= y < |cur| ==> |cur[y]| == |fr0.main[y]|
      requires 0 <= b.x0 + ox && b.x1 + ox <= width && 0 <= b.y0 + oy && b.y1 + oy <= height
    {
      PixelsFilled(fr0, m0, b, ox, oy, cur, cj, ci) &&
      (forall y, k :: 0 <= y < |cur| && 0 <= k < |cur[y]| && (y >= height || k >= RowBytes(format, width)) ==>
         cur[y][k] == fr0.main[y][k])
    }

    /** The pixel bytes of `cur` while the fill proceeds: those of the cells
        of `b` to fill before `(ci, cj)` come from the donor, the others are
        as in `fr0`. */
    ghost predicate PixelsFilled(fr0: Frame, m0: Plane<byte>, b: Box, ox: int, oy: int, cur: Plane<byte>, cj: int, ci: int)
      requires FrameOk(format, fr0, width, height) && IsGrid(m0, width, height) && b.Within(width, height)
      requires |cur| == |fr0.main| && forall y :: 0 <= y < |cur| ==> |cur[y]| == |fr0.main[y]|
      requires 0 <= b.x0 + ox && b.x1 + ox <= width && 0 <= b.y0 + oy && b.y1 + oy <= height
    {
      forall y, x, d {:trigger cur[y][ByteAt(format, x, d)]} ::
        0 <= y < height && 0 <= x < width && 0 <= d < BytesPerPixel(format) ==>
        cur[y][ByteAt(format, x, d)] ==
          if b.Contains(x, y) && m0[y][x] != SOURCE && Before(x, y, ci, cj) then fr0.main[y + oy][ByteAt(format, x + ox, d)]
          else fr0.main[y][ByteAt(format, x, d)]
    }

    /** The chroma planes while the same fill proceeds: for YV12 each plane
        is the one the scan of `b` up to `(ci, cj)` makes of it; the other
        layouts leave them alone. */
    ghost predicate ChromaFilled(fr0: Frame, m0: Plane<byte>, b: Box, ox: int, oy: int, u: array2<byte>, v: array2<byte>, cj: int, ci: int)
      reads u, v
      requires IsGrid(m0, width, height) && b.Within(width, height)
      requires |fr0.u| == u.Length0 && |fr0.v| == v.Length0
      requires (forall y :: 0 <= y < u.Length0 ==> |fr0.u[y]| == u.Length1) && (forall y :: 0 <= y < v.Length0 ==> |fr0.v[y]| == v.Length1)
    {
      (format == YV12 ==>
         Patch.ChromaFillOk(fr0.u, m0, width, height, b, ox, oy, cj, ci) && Patch.ChromaFillOk(fr0.v, m0, width, height, b, ox, oy, cj, ci) &&
         ChromaIs(u, Patch.ChromaFill(fr0.u, m0, width, height, b, ox, oy, cj, ci)) &&
         ChromaIs(v, Patch.ChromaFill(fr0.v, m0, width, height, b, ox, oy, cj, ci))) &&
      (format != YV12 ==>
         (forall y, k :: 0 <= y < u.Length0 && 0 <= k < u.Length1 ==> u[y, k] == fr0.u[y][k]) &&
         (forall y, k :: 0 <= y < v.Length0 && 0 <= k < v.Length1 ==> v[y, k] == fr0.v[y][k]))
    }

    /** The plane `c` holds the samples of `p`, which has its shape. */
    ghost predicate ChromaIs(c: array2<byte>, p: Plane<byte>)
      reads c
    {
      IsGrid(p, c.Length1, c.Length0) && forall y, k :: 0 <= y < c.Length0 && 0 <= k < c.Length1 ==> c[y, k] == p[y][k]
    }

    /** Fills the cell `(x1, y1)` of `b` from the cell `(ox, oy)` away when
        it is not SOURCE yet: its mark, confidence and gray value, the
        bytes of its pixel and, for YV12, its chroma samples. */
    method FillCell(x1: int, ghost x2: int, y1: int, ox: int, oy: int, conf: int, main: array2<byte>, u: array2<byte>, v: array2<byte>,
                    ghost l0: Layers, ghost fr0: Frame, ghost b: Box)
      requires x2 == x1 + 1
      requires Valid() && PictureOk(main, u, v) && LayersOk(l0) && l0.w == width && l0.h == height
      requires FrameOk(format, fr0, width, height) && Shaped(fr0, main, u, v)
      requires b.Within(width, height) && b.Contains(x1, y1) && DonorShift(l0.mark, b, ox, oy)
      requires GridsFilled(l0, b, ox, oy, conf, y1, x1)
      requires MainFilled(fr0, l0.mark, b, ox, oy, View(main), y1, x1) && ChromaFilled(fr0, l0.mark, b, ox, oy, u, v, y1, x1)
      modifies mark, gray, confid, main, u, v
      ensures GridsFilled(l0, b, ox, oy, conf, y1, x2)
      ensures MainFilled(fr0, l0.mark, b, ox, oy, View(main), y1, x2) && ChromaFilled(fr0, l0.mark, b, ox, oy, u, v, y1, x2)
    {
      if mark[y1, x1] != SOURCE {
        assert l0.mark[y1][x1] != SOURCE;
        SetCell(x1, x2, y1, ox, oy, conf, l0, b);
        assert MainFilled(fr0, l0.mark, b, ox, oy, View(main), y1, x1) && ChromaFilled(fr0, l0.mark, b, ox, oy, u, v, y1, x1);
        CopyBytes(x1, x2, y1, ox, oy, main, l0.mark, fr0, b);
        assert GridsFilled(l0, b, ox, oy, conf, y1, x2) && ChromaFilled(fr0, l0.mark, b, ox, oy, u, v, y1, x1);
        if format == YV12 {
          CopyChroma(x1, x2, y1, ox, oy, u, v, l0.mark, fr0, b);
        }
      } else {
        SkipCell(x1, x2, y1, ox, oy, conf, main, u, v, l0, fr0, b);
      }
    }

    /** A cell of `b` that is SOURCE already is left as it is: the fill has
        moved past it. */
    lemma SkipCell(x1: int, x2: int, y1: int, ox: int, oy: int, conf: int, main: array2<byte>, u: array2<byte>, v: array2<byte>,
                   l0: Layers, fr0: Frame, b: Box)
      requires x2 == x1 + 1
      requires Valid() && PictureOk(main, u, v) && LayersOk(l0) && l0.w == width && l0.h == height
      requires FrameOk(format, fr0, width, height) && Shaped(fr0, main, u, v)
      requires b.Within(width, height) && b.Contains(x1, y1) && DonorShift(l0.mark, b, ox, oy)
      requires GridsFilled(l0, b, ox, oy, conf, y1, x1) && mark[y1, x1] == SOURCE
      requires MainFilled(fr0, l0.mark, b, ox, oy, View(main), y1, x1) && ChromaFilled(fr0, l0.mark, b, ox, oy, u, v, y1, x1)
      ensures GridsFilled(l0, b, ox, oy, conf, y1, x2)
      ensures MainFilled(fr0, l0.mark, b, ox, oy, View(main), y1, x2) && ChromaFilled(fr0, l0.mark, b, ox, oy, u, v, y1, x2)
    {
      assert forall y, x :: b.Contains(x, y) && l0.mark[y][x] != SOURCE ==> (Before(x, y, x1, y1) <==> Before(x, y, x2, y1));
      if format == YV12 {
        assert l0.mark[y1][x1] == SOURCE;
        Patch.ChromaFillStep(fr0.u, l0.mark, width, height, b, ox, oy, y1, x1);
        Patch.ChromaFillStep(fr0.v, l0.mark, width, height, b, ox, oy, y1, x1);
      }
    }

    /** Marks the cell `(x1, y1)` of `b`, which is not SOURCE, as filled:
        SOURCE, confidence `conf`, and the gray value of its donor cell. */
    method SetCell(x1: int, ghost x2: int, y1: int, ox: int, oy: int, conf: int, ghost l0: Layers, ghost b: Box)
      requires x2 == x1 + 1
      requires Valid() && LayersOk(l0) && l0.w == width && l0.h == height
      requires b.Within(width, height) && b.Contains(x1, y1) && DonorShift(l0.mark, b, ox, oy)
      requires GridsFilled(l0, b, ox, oy, conf, y1, x1) && mark[y1, x1] != SOURCE
      modifies mark, gray, confid
      ensures GridsFilled(l0, b, ox, oy, conf, y1, x2)
    {
      var x0, y0 := x1 + ox, y1 + oy;
      assert l0.mark[y0][x0] == SOURCE && l0.mark[y1][x1] != SOURCE;
      assert gray[y0, x0] == l0.gray[y0][x0];
      mark[y1, x1] := SOURCE;
      gray[y1, x1] := gray[y0, x0];
      confid[y1, x1] := conf;
      assert forall y, x :: b.Contains(x, y) && (x, y) != (x1, y1) ==> (Before(x, y, x1, y1) <==> Before(x, y, x2, y1));
    }

    /** Copies every byte of the donor pixel of the cell `(x1, y1)` of `b`,
        which was not SOURCE, onto its own bytes. */
    method CopyBytes(x1: int, ghost x2: int, y1: int, ox: int, oy: int, main: array2<byte>, ghost m0: Plane<byte>, ghost fr0: Frame, ghost b: Box)
      requires x2 == x1 + 1
      requires Valid() && main.Length0 >= height && main.Length1 >= RowBytes(format, width) && IsGrid(m0, width, height)
      requires FrameOk(format, fr0, width, height) && |fr0.main| == main.Length0
      requires forall y :: 0 <= y < main.Length0 ==> |fr0.main[y]| == main.Length1
      requires b.Within(width, height) && b.Contains(x1, y1) && m0[y1][x1] != SOURCE && DonorShift(m0, b, ox, oy)
      requires MainFilled(fr0, m0, b, ox, oy, View(main), y1, x1)
      modifies main
      ensures MainFilled(fr0, m0, b, ox, oy, View(main), y1, x2)
    {
      var x0, y0 := x1 + ox, y1 + oy;
      assert m0[y0][x0] == SOURCE;
      ghost var pre := View(main);
      StorePixel(x1, y1, x0, y0, main);
      PixelCopied(x1, x2, y1, ox, oy, pre, View(main), m0, fr0, b);
    }

    /** Copies the bytes of pixel `(x0, y0)` of `main` onto pixel `(x1, y1)`:
        one 32-bit store for the four-byte formats, three byte stores for the
        three-byte ones, the luma byte for YV12. */
    method StorePixel(x1: int, y1: int, x0: int, y0: int, main: array2<byte>)
      requires Valid() && main.Length0 >= height && main.Length1 >= RowBytes(format, width)
      requires InFrame(x1, y1, width, height) && InFrame(x0, y0, width, height) && (x0, y0) != (x1, y1)
      modifies main
      ensures forall d :: 0 <= d < BytesPerPixel(format) ==>
        main[y1, ByteAt(format, x1, d)] == old(main[y0, ByteAt(format, x0, d)])
      ensures forall y, k :: (0 <= y < main.Length0 && 0 <= k < main.Length1 &&
        (y != y1 || k < ByteAt(format, x1, 0) || k >= ByteAt(format, x1, BytesPerPixel(format)))) ==> main[y, k] == old(main[y, k])
    {
      if format == RGB32 || format == RGBA {
        // one 32-bit store: colour and alpha
        main[y1, 4 * x1], main[y1, 4 * x1 + 1], main[y1, 4 * x1 + 2], main[y1, 4 * x1 + 3] :=
          main[y0, 4 * x0], main[y0, 4 * x0 + 1], main[y0, 4 * x0 + 2], main[y0, 4 * x0 + 3];
      } else if format == RGB24 || format == YUV24 {
        main[y1, 3 * x1] := main[y0, 3 * x0];
        main[y1, 3 * x1 + 1] := main[y0, 3 * x0 + 1];
        main[y1, 3 * x1 + 2] := main[y0, 3 * x0 + 2];
      } else {
        main[y1, x1] := main[y0, x0];
      }
    }

    /** The main plane after the bytes of the filled cell `(x1, y1)` were
        copied from its donor: the fill has advanced past that cell. */
    lemma PixelCopied(x1: int, x2: int, y1: int, ox: int, oy: int, pre: Plane<byte>, cur: Plane<byte>, m0: Plane<byte>, fr0: Frame, b: Box)
      requires x2 == x1 + 1
      requires FrameOk(format, fr0, width, height) && IsGrid(m0, width, height)
      requires |pre| == |fr0.main| && (forall y :: 0 <= y < |pre| ==> |pre[y]| == |fr0.main[y]|)
      requires |cur| == |pre| && (forall y :: 0 <= y < |cur| ==> |cur[y]| == |pre[y]|)
      requires b.Within(width, height) && b.Contains(x1, y1) && m0[y1][x1] != SOURCE && DonorShift(m0, b, ox, oy)
      requires forall d :: 0 <= d < BytesPerPixel(format) ==>
        cur[y1][ByteAt(format, x1, d)] == pre[y1 + oy][ByteAt(format, x1 + ox, d)]
      requires forall y, k :: (0 <= y < |cur| && 0 <= k < |cur[y]| &&
        (y != y1 || k < ByteAt(format, x1, 0) || k >= ByteAt(format, x1, BytesPerPixel(format)))) ==> cur[y][k] == pre[y][k]
      requires MainFilled(fr0, m0, b, ox, oy, pre, y1, x1)
      ensures MainFilled(fr0, m0, b, ox, oy, cur, y1, x2)
    {
      var x0, y0 := x1 + ox, y1 + oy;
      assert m0[y0][x0] == SOURCE;
      forall d | 0 <= d < BytesPerPixel(format)
        ensures pre[y0][ByteAt(format, x0, d)] == fr0.main[y0][ByteAt(format, x0, d)]
      {
        assert !(b.Contains(x0, y0) && m0[y0][x0] != SOURCE && Before(x0, y0, x1, y1));
      }
      CellBytesFilled(x1, x2, y1, ox, oy, pre, cur, m0, fr0, b);
      PaddingKept(x1, y1, pre, cur, fr0);
    }

    /** The pixel bytes of the frame once the cell `(x1, y1)` took the bytes
        of its donor, which still held its original bytes. */
    lemma CellBytesFilled(x1: int, x2: int, y1: int, ox: int, oy: int, pre: Plane<byte>, cur: Plane<byte>, m0: Plane<byte>, fr0: Frame, b: Box)
      requires x2 == x1 + 1
      requires FrameOk(format, fr0, width, height) && IsGrid(m0, width, height)
      requires |pre| == |fr0.main| && (forall y :: 0 <= y < |pre| ==> |pre[y]| == |fr0.main[y]|)
      requires |cur| == |pre| && (forall y :: 0 <= y < |cur| ==> |cur[y]| == |pre[y]|)
      requires b.Within(width, height) && b.Contains(x1, y1) && m0[y1][x1] != SOURCE && DonorShift(m0, b, ox, oy)
      requires forall d :: 0 <= d < BytesPerPixel(format) ==>
        cur[y1][ByteAt(format, x1, d)] == fr0.main[y1 + oy][ByteAt(format, x1 + ox, d)]
      requires forall y, k :: (0 <= y < |cur| && 0 <= k < |cur[y]| &&
        (y != y1 || k < ByteAt(format, x1, 0) || k >= ByteAt(format, x1, BytesPerPixel(format)))) ==> cur[y][k] == pre[y][k]
      requires PixelsFilled(fr0, m0, b, ox, oy, pre, y1, x1)
      ensures PixelsFilled(fr0, m0, b, ox, oy, cur, y1, x2)
    {
      forall y, x, d | 0 <= y < height && 0 <= x < width && 0 <= d < BytesPerPixel(format)
        ensures cur[y][ByteAt(format, x, d)] ==
          if b.Contains(x, y) && m0[y][x] != SOURCE && Before(x, y, x2, y1) then fr0.main[y + oy][ByteAt(format, x + ox, d)]
          else fr0.main[y][ByteAt(format, x, d)]
      {
        if (x, y) != (x1, y1) {
          ByteAtSeparate(format, x, x1, d, width);
          assert cur[y][ByteAt(format, x, d)] == pre[y][ByteAt(format, x, d)];
          assert Before(x, y, x2, y1) <==> Before(x, y, x1, y1);
        }
      }
    }

    /** Bytes past the frame stay as they were when only the bytes of the
        pixel `(x1, y1)` change. */
    lemma PaddingKept(x1: int, y1: int, pre: Plane<byte>, cur: Plane<byte>, fr0: Frame)
      requires FrameOk(format, fr0, width, height) && InFrame(x1, y1, width, height)
      requires |pre| == |fr0.main| && (forall y :: 0 <= y < |pre| ==> |pre[y]| == |fr0.main[y]|)
      requires |cur| == |pre| && (forall y :: 0 <= y < |cur| ==> |cur[y]| == |pre[y]|)
      requires forall y, k :: (0 <= y < |cur| && 0 <= k < |cur[y]| &&
        (y != y1 || k < ByteAt(format, x1, 0) || k >= ByteAt(format, x1, BytesPerPixel(format)))) ==> cur[y][k] == pre[y][k]
      requires forall y, k :: 0 <= y < |pre| && 0 <= k < |pre[y]| && (y >= height || k >= RowBytes(format, width)) ==>
        pre[y][k] == fr0.main[y][k]
      ensures forall y, k :: 0 <= y < |cur| && 0 <= k < |cur[y]| && (y >= height || k >= RowBytes(format, width)) ==>
        cur[y][k] == fr0.main[y][k]
    {
      forall d | 0 <= d < BytesPerPixel(format) ensures ByteAt(format, x1, d) < RowBytes(format, width) {
        ByteAtSeparate(format, x1, x1, d, width);
      }
    }

    /** Copies the chroma samples of the donor pixel of the cell `(x1, y1)`
        of `b`, which was not SOURCE, onto its own samples. */
    method CopyChroma(x1: int, ghost x2: int, y1: int, ox: int, oy: int, u: array2<byte>, v: array2<byte>,
                      ghost m0: Plane<byte>, ghost fr0: Frame, ghost b: Box)
      requires x2 == x1 + 1
      requires Valid() && format == YV12 && IsGrid(m0, width, height)
      requires u.Length0 >= (height + 1) / 2 && u.Length1 >= (width + 1) / 2 && v.Length0 >= (height + 1) / 2 && v.Length1 >= (width + 1) / 2
      requires |fr0.u| == u.Length0 && |fr0.v| == v.Length0 && u != v
      requires (forall y :: 0 <= y < u.Length0 ==> |fr0.u[y]| == u.Length1) && (forall y :: 0 <= y < v.Length0 ==> |fr0.v[y]| == v.Length1)
      requires b.Within(width, height) && b.Contains(x1, y1) && m0[y1][x1] != SOURCE
      requires 0 <= b.x0 + ox && b.x1 + ox <= width && 0 <= b.y0 + oy && b.y1 + oy <= height
      requires ChromaFilled(fr0, m0, b, ox, oy, u, v, y1, x1)
      modifies u, v
      ensures ChromaFilled(fr0, m0, b, ox, oy, u, v, y1, x2)
    {
      var x0, y0 := x1 + ox, y1 + oy;
      FillChroma(x1, x2, y1, ox, oy, u, fr0.u, m0, b);
      FillChroma(x1, x2, y1, ox, oy, v, fr0.v, m0, b);
    }

    /** Copies the sample of the chroma plane `c` of the donor pixel of the
        cell `(x1, y1)` of `b`, which was not SOURCE, onto its own sample:
        the scan of `b` from `c0` moves past that cell. */
    method FillChroma(x1: int, ghost x2: int, y1: int, ox: int, oy: int, c: array2<byte>, ghost c0: Plane<byte>, ghost m0: Plane<byte>, ghost b: Box)
      requires x2 == x1 + 1
      requires Patch.ChromaFillOk(c0, m0, width, height, b, ox, oy, y1, x1) && b.Contains(x1, y1) && m0[y1][x1] != SOURCE
      requires c.Length0 >= (height + 1) / 2 && c.Length1 >= (width + 1) / 2
      requires ChromaIs(c, Patch.ChromaFill(c0, m0, width, height, b, ox, oy, y1, x1))
      modifies c
      ensures Patch.ChromaFillOk(c0, m0, width, height, b, ox, oy, y1, x2)
      ensures ChromaIs(c, Patch.ChromaFill(c0, m0, width, height, b, ox, oy, y1, x2))
    {
      ghost var p := Patch.ChromaFill(c0, m0, width, height, b, ox, oy, y1, x1);
      Patch.ChromaFillStep(c0, m0, width, height, b, ox, oy, y1, x1);
      var x0, y0 := x1 + ox, y1 + oy;
      c[y1 / 2, x1 / 2] := c[y0 / 2, x0 / 2];
      assert ChromaIs(c, p[y1 / 2 := p[y1 / 2][x1 / 2 := p[y0 / 2][x0 / 2]]]);
    }

    /** Fills the cells of row `y1` of `b`. */
    method FillRow(y1: int, ghost y2: int, ox: int, oy: int, conf: int, main: array2<byte>, u: array2<byte>, v: array2<byte>,
                   ghost l0: Layers, ghost fr0: Frame, b: Box)
      requires Valid() && PictureOk(main, u, v) && LayersOk(l0) && l0.w == width && l0.h == height
      requires FrameOk(format, fr0, width, height) && Shaped(fr0, main, u, v)
      requires b.Within(width, height) && b.y0 <= y1 < b.y1 && y2 == y1 + 1 && b.x0 <= b.x1 && DonorShift(l0.mark, b, ox, oy)
      requires GridsFilled(l0, b, ox, oy, conf, y1, b.x0)
      requires MainFilled(fr0, l0.mark, b, ox, oy, View(main), y1, b.x0) && ChromaFilled(fr0, l0.mark, b, ox, oy, u, v, y1, b.x0)
      modifies mark, gray, confid, main, u, v
      ensures GridsFilled(l0, b, ox, oy, conf, y2, b.x0)
      ensures MainFilled(fr0, l0.mark, b, ox, oy, View(main), y2, b.x0) && ChromaFilled(fr0, l0.mark, b, ox, oy, u, v, y2, b.x0)
    {
      var x1 := b.x0;
      while x1 < b.x1
        invariant b.x0 <= x1 <= b.x1
        invariant GridsFilled(l0, b, ox, oy, conf, y1, x1)
        invariant MainFilled(fr0, l0.mark, b, ox, oy, View(main), y1, x1) && ChromaFilled(fr0, l0.mark, b, ox, oy, u, v, y1, x1)
      {
        var x2 := x1 + 1;
        FillCell(x1, x2, y1, ox, oy, conf, main, u, v, l0, fr0, b);
        x1 := x2;
      }
      FillRowDone(y1, y2, x1, ox, oy, conf, main, u, v, l0, fr0, b);
    }

    /** The fill up to the end of row `y1` of `b` is the fill up to the
        start of row `y1 + 1`. */
    lemma FillRowDone(y1: int, y2: int, x1: int, ox: int, oy: int, conf: int, main: array2<byte>, u: array2<byte>, v: array2<byte>,
                      l0: Layers, fr0: Frame, b: Box)
      requires Valid() && PictureOk(main, u, v) && LayersOk(l0) && l0.w == width && l0.h == height
      requires FrameOk(format, fr0, width, height) && Shaped(fr0, main, u, v)
      requires b.Within(width, height) && b.y0 <= y1 < b.y1 && y2 == y1 + 1 && b.x0 <= b.x1 && DonorShift(l0.mark, b, ox, oy)
      requires x1 == b.x1 && GridsFilled(l0, b, ox, oy, conf, y1, x1)
      requires MainFilled(fr0, l0.mark, b, ox, oy, View(main), y1, x1) && ChromaFilled(fr0, l0.mark, b, ox, oy, u, v, y1, x1)
      ensures GridsFilled(l0, b, ox, oy, conf, y2, b.x0)
      ensures MainFilled(fr0, l0.mark, b, ox, oy, View(main), y2, b.x0) && ChromaFilled(fr0, l0.mark, b, ox, oy, u, v, y2, b.x0)
    {
      assert forall y, x :: b.Contains(x, y) ==> (Before(x, y, b.x1, y1) <==> Before(x, y, b.x0, y2));
      ChromaRowDone(fr0, l0.mark, b, ox, oy, u, v, y1, y2, x1);
    }

    /** The chroma planes at the end of row `y1` of `b` are those at the
        start of row `y1 + 1`. */
    lemma ChromaRowDone(fr0: Frame, m0: Plane<byte>, b: Box, ox: int, oy: int, u: array2<byte>, v: array2<byte>, y1: int, y2: int, x1: int)
      requires IsGrid(m0, width, height) && b.Within(width, height) && b.y0 <= y1 < b.y1 && y2 == y1 + 1 && x1 == b.x1
      requires |fr0.u| == u.Length0 && |fr0.v| == v.Length0
      requires (forall y :: 0 <= y < u.Length0 ==> |fr0.u[y]| == u.Length1) && (forall y :: 0 <= y < v.Length0 ==> |fr0.v[y]| == v.Length1)
      requires ChromaFilled(fr0, m0, b, ox, oy, u, v, y1, x1)
      ensures ChromaFilled(fr0, m0, b, ox, oy, u, v, y2, b.x0)
    {
      if format == YV12 {
        Patch.ChromaFillRowEnd(fr0.u, m0, width, height, b, ox, oy, y1);
        Patch.ChromaFillRowEnd(fr0.v, m0, width, height, b, ox, oy, y1);
      }
    }

    /** `update`: fills the clipped window of the target `(tx, ty)` from the
        donor window centred at `(sx, sy)`. Each cell of the window that is
        not SOURCE yet becomes SOURCE with confidence `conf`, and takes the
        gray value and the pixel bytes of the cell at the same offset in the
        donor window (for YV12 also the chroma samples of that cell). */
    method Update(tx: int, ty: int, sx: int, sy: int, conf: int, main: array2<byte>, u: array2<byte>, v: array2<byte>,
                  ghost l0: Layers, ghost fr0: Frame)
      requires Valid() && PictureOk(main, u, v) && width >= 2 && height >= 2 && winX >= 1 && winY >= 1
      requires l0 == Grids() && fr0 == Pic(main, u, v)
      requires InFrame(tx, ty, width, height) && Search.DonorAt(l0.mark, width, height, winX, winY, sx, sy)
      modifies mark, gray, confid, main, u, v
      ensures Patch.PatchedLayers(l0, Grids(), winX, winY, tx, ty, sx, sy, conf)
      ensures Patch.PatchedPixels(format, fr0, Pic(main, u, v), width, height, l0.mark, winX, winY, tx, ty, sx, sy)
    {
      var b := Window(tx, ty, winX, winY, width, height);
      var ox, oy := sx - tx, sy - ty;
      assert DonorShift(l0.mark, b, ox, oy);
      FillWindow(ox, oy, conf, main, u, v, l0, fr0, b);
      LayersPatched(l0, b, ox, oy, conf, tx, ty, sx, sy);
      PixelsPatched(fr0, l0.mark, b, ox, oy, main, u, v, tx, ty, sx, sy);
    }

    /** The copy loop of `Update`: the rows of the window `b`, top to
        bottom, each cell from the cell `(ox, oy)` away. */
    method FillWindow(ox: int, oy: int, conf: int, main: array2<byte>, u: array2<byte>, v: array2<byte>,
                      ghost l0: Layers, ghost fr0: Frame, b: Box)
      requires Valid() && PictureOk(main, u, v) && LayersOk(l0) && l0.w == width && l0.h == height
      requires l0 == Grids() && fr0 == Pic(main, u, v) && FrameOk(format, fr0, width, height)
      requires b.Within(width, height) && b.y0 <= b.y1 && b.x0 <= b.x1 && DonorShift(l0.mark, b, ox, oy)
      modifies mark, gray, confid, main, u, v
      ensures GridsFilled(l0, b, ox, oy, conf, b.y1, b.x0)
      ensures MainFilled(fr0, l0.mark, b, ox, oy, View(main), b.y1, b.x0) && ChromaFilled(fr0, l0.mark, b, ox, oy, u, v, b.y1, b.x0)
    {
      assert GridsFilled(l0, b, ox, oy, conf, b.y0, b.x0);
      assert MainFilled(fr0, l0.mark, b, ox, oy, View(main), b.y0, b.x0) && ChromaFilled(fr0, l0.mark, b, ox, oy, u, v, b.y0, b.x0);
      FillRows(ox, oy, conf, main, u, v, l0, fr0, b);
    }

    /** The rows of `b`, top to bottom. */
    method FillRows(ox: int, oy: int, conf: int, main: array2<byte>, u: array2<byte>, v: array2<byte>,
                    ghost l0: Layers, ghost fr0: Frame, b: Box)
      requires Valid() && PictureOk(main, u, v) && LayersOk(l0) && l0.w == width && l0.h == height
      requires FrameOk(format, fr0, width, height) && Shaped(fr0, main, u, v)
      requires b.Within(width, height) && b.y0 <= b.y1 && b.x0 <= b.x1 && DonorShift(l0.mark, b, ox, oy)
      requires GridsFilled(l0, b, ox, oy, conf, b.y0, b.x0)
      requires MainFilled(fr0, l0.mark, b, ox, oy, View(main), b.y0, b.x0) && ChromaFilled(fr0, l0.mark, b, ox, oy, u, v, b.y0, b.x0)
      modifies mark, gray, confid, main, u, v
      ensures GridsFilled(l0, b, ox, oy, conf, b.y1, b.x0)
      ensures MainFilled(fr0, l0.mark, b, ox, oy, View(main), b.y1, b.x0) && ChromaFilled(fr0, l0.mark, b, ox, oy, u, v, b.y1, b.x0)
    {
      var y1 := b.y0;
      while y1 < b.y1
        invariant b.y0 <= y1 <= b.y1
        invariant GridsFilled(l0, b, ox, oy, conf, y1, b.x0)
        invariant MainFilled(fr0, l0.mark, b, ox, oy, View(main), y1, b.x0) && ChromaFilled(fr0, l0.mark, b, ox, oy, u, v, y1, b.x0)
      {
        var y2 := y1 + 1;
        FillRow(y1, y2, ox, oy, conf, main, u, v, l0, fr0, b);
        y1 := y2;
      }
    }

    /** The grids once every cell of the window is behind the fill. */
    lemma LayersPatched(l0: Layers, b: Box, ox: int, oy: int, conf: int, tx: int, ty: int, sx: int, sy: int)
      requires Valid() && LayersOk(l0) && l0.w == width && l0.h == height && winX >= 1 && winY >= 1
      requires InFrame(tx, ty, width, height) && Search.WindowInFrame(width, height, winX, winY, sx, sy)
      requires b == Window(tx, ty, winX, winY, width, height) && ox == sx - tx && oy == sy - ty
      requires DonorShift(l0.mark, b, ox, oy)
      requires GridsFilled(l0, b, ox, oy, conf, b.y1, b.x0)
      ensures Patch.PatchedLayers(l0, Grids(), winX, winY, tx, ty, sx, sy, conf)
    {
      var l1 := Grids();
      forall y, x | 0 <= y < height && 0 <= x < width && Patch.Fills(l0.mark, width, height, winX, winY, tx, ty, x, y)
        ensures l1.mark[y][x] == SOURCE && l1.confid[y][x] == conf && l1.gray[y][x] == l0.gray[sy + y - ty][sx + x - tx]
      {
        assert b.Contains(x, y) && Before(x, y, b.x0, b.y1);
      }
      forall y, x | 0 <= y < height && 0 <= x < width && !Patch.Fills(l0.mark, width, height, winX, winY, tx, ty, x, y)
        ensures l1.mark[y][x] == l0.mark[y][x] && l1.confid[y][x] == l0.confid[y][x] && l1.gray[y][x] == l0.gray[y][x]
      {
        assert !(b.Contains(x, y) && l0.mark[y][x] != SOURCE);
      }
    }

    /** The picture once every cell of the window is behind the fill. */
    lemma PixelsPatched(fr0: Frame, m0: Plane<byte>, b: Box, ox: int, oy: int, main: array2<byte>, u: array2<byte>, v: array2<byte>,
                        tx: int, ty: int, sx: int, sy: int)
      requires Valid() && PictureOk(main, u, v) && IsGrid(m0, width, height) && winX >= 1 && winY >= 1
      requires FrameOk(format, fr0, width, height) && Shaped(fr0, main, u, v)
      requires InFrame(tx, ty, width, height) && Search.WindowInFrame(width, height, winX, winY, sx, sy)
      requires b == Window(tx, ty, winX, winY, width, height) && ox == sx - tx && oy == sy - ty
      requires DonorShift(m0, b, ox, oy)
      requires MainFilled(fr0, m0, b, ox, oy, View(main), b.y1, b.x0) && ChromaFilled(fr0, m0, b, ox, oy, u, v, b.y1, b.x0)
      ensures Patch.PatchedPixels(format, fr0, Pic(main, u, v), width, height, m0, winX, winY, tx, ty, sx, sy)
    {
      var fr1 := Pic(main, u, v);
      MainPatched(fr0, m0, b, ox, oy, fr1.main, tx, ty, sx, sy);
      ChromaPatched(fr0, m0, b, ox, oy, u, v, tx, ty, sx, sy);
    }

    /** The main plane once every cell of the window is behind the fill. */
    lemma MainPatched(fr0: Frame, m0: Plane<byte>, b: Box, ox: int, oy: int, cur: Plane<byte>, tx: int, ty: int, sx: int, sy: int)
      requires IsGrid(m0, width, height) && winX >= 1 && winY >= 1 && FrameOk(format, fr0, width, height)
      requires |cur| == |fr0.main| && forall y :: 0 <= y < |cur| ==> |cur[y]| == |fr0.main[y]|
      requires InFrame(tx, ty, width, height) && Search.WindowInFrame(width, height, winX, winY, sx, sy)
      requires b == Window(tx, ty, winX, winY, width, height) && ox == sx - tx && oy == sy - ty
      requires DonorShift(m0, b, ox, oy) && MainFilled(fr0, m0, b, ox, oy, cur, b.y1, b.x0)
      ensures Patch.SameShape(fr0.main, cur)
      ensures forall y, x, d :: (0 <= y < height && 0 <= x < width && 0 <= d < BytesPerPixel(format) &&
        Patch.Fills(m0, width, height, winX, winY, tx, ty, x, y)) ==>
        cur[y][ByteAt(format, x, d)] == fr0.main[sy + y - ty][ByteAt(format, sx + x - tx, d)]
      ensures forall y, x, d :: (0 <= y < height && 0 <= x < width && 0 <= d < BytesPerPixel(format) &&
        !Patch.Fills(m0, width, height, winX, winY, tx, ty, x, y)) ==>
        cur[y][ByteAt(format, x, d)] == fr0.main[y][ByteAt(format, x, d)]
      ensures forall y, k :: 0 <= y < |fr0.main| && 0 <= k < |fr0.main[y]| && (y >= height || k >= RowBytes(format, width)) ==>
        cur[y][k] == fr0.main[y][k]
    {
      assert forall y, x :: b.Contains(x, y) ==> Before(x, y, b.x0, b.y1);
    }

    /** The chroma planes once every cell of the window is behind the fill:
        for YV12 what the whole scan of the window makes of them; the other
        layouts left them alone. */
    lemma ChromaPatched(fr0: Frame, m0: Plane<byte>, b: Box, ox: int, oy: int, u: array2<byte>, v: array2<byte>,
                        tx: int, ty: int, sx: int, sy: int)
      requires Valid() && IsGrid(m0, width, height) && b.Within(width, height)
      requires b == Window(tx, ty, winX, winY, width, height) && ox == sx - tx && oy == sy - ty
      requires |fr0.u| == u.Length0 && |fr0.v| == v.Length0
      requires (forall y :: 0 <= y < u.Length0 ==> |fr0.u[y]| == u.Length1) && (forall y :: 0 <= y < v.Length0 ==> |fr0.v[y]| == v.Length1)
      requires ChromaFilled(fr0, m0, b, ox, oy, u, v, b.y1, b.x0)
      ensures Patch.SameShape(fr0.u, View(u)) && Patch.SameShape(fr0.v, View(v))
      ensures format != YV12 ==> View(u) == fr0.u && View(v) == fr0.v
      ensures format == YV12 ==>
        var w := Window(tx, ty, winX, winY, width, height);
        Patch.ChromaFillOk(fr0.u, m0, width, height, w, sx - tx, sy - ty, w.y1, w.x0) &&
        Patch.ChromaFillOk(fr0.v, m0, width, height, w, sx - tx, sy - ty, w.y1, w.x0) &&
        View(u) == Patch.ChromaFill(fr0.u, m0, width, height, w, sx - tx, sy - ty, w.y1, w.x0) &&
        View(v) == Patch.ChromaFill(fr0.v, m0, width, height, w, sx - tx, sy - ty, w.y1, w.x0)
    {
      if format != YV12 {
        PlaneEq(View(u), fr0.u, u.Length1, u.Length0);
        PlaneEq(View(v), fr0.v, v.Length1, v.Length0);
      } else {
        PlaneEq(View(u), Patch.ChromaFill(fr0.u, m0, width, height, b, ox, oy, b.y1, b.x0), u.Length1, u.Length0);
        PlaneEq(View(v), Patch.ChromaFill(fr0.v, m0, width, height, b, ox, oy, b.y1, b.x0), v.Length1, v.Length0);
      }
    }

    // -------------------------------------------------------------------
    // The driver

    /** The sizes the fill loop runs with. */
    ghost function Setup(): Setting
      reads `winX, `winY, `top, `bottom, `left, `right
    {
      Setting(format, width, height, winX, winY, top, bottom, left, right)
    }

    /** The loop state of the engine and the caller's picture. */
    ghost predicate Running(main: array2<byte>, u: array2<byte>, v: array2<byte>)
      reads this, mark, confid, pri, gray, source, main, u, v
    {
      Valid() && PictureOk(main, u, v) && LoopState(Setup(), Grids(), View(pri), View(source), Pic(main, u, v), maxPri, priX, priY)
    }

    /** The first priorities: every BOUNDARY cell of the rectangle gets its
        priority; the other cells keep theirs. */
    method InitPriorities()
      requires Valid() && width >= 2 && height >= 2 && winX >= 1 && winY >= 1 && RectInFrame()
      modifies pri
      ensures var pp := Priorities(Grids(), winX, winY);
        forall y, x :: 0 <= y < height && 0 <= x < width ==>
          pri[y, x] == if InRect(x, y) && mark[y, x] == BOUNDARY then pp[y][x] else old(pri[y, x])
    {
      ghost var g, pp, p0 := View(mark), Priorities(Grids(), winX, winY), View(pri);
      var j := top;
      while j <= bottom
        invariant top <= bottom ==> top <= j <= bottom + 1
        invariant InitScan(g, pp, p0, left, j)
      {
        InitRow(j, g, pp, p0);
        j := j + 1;
      }
      assert forall y, x :: InRect(x, y) ==> Before(x, y, left, j);
    }

    /** Stored priorities while the first priorities are written: BOUNDARY
        cells of the rectangle before `(i, j)` hold their priority `pp`,
        every other cell its old value `p0`. */
    ghost predicate InitScan(g: Plane<byte>, pp: Plane<int>, p0: Plane<int>, i: int, j: int)
      reads this, pri
      requires Valid() && IsGrid(g, width, height) && IsGrid(pp, width, height) && IsGrid(p0, width, height)
    {
      forall y, x :: 0 <= y < height && 0 <= x < width ==>
        pri[y, x] == if InRect(x, y) && Before(x, y, i, j) && g[y][x] == BOUNDARY then pp[y][x] else p0[y][x]
    }

    method InitRow(j: int, ghost g: Plane<byte>, ghost pp: Plane<int>, ghost p0: Plane<int>)
      requires Valid() && width >= 2 && height >= 2 && winX >= 1 && winY >= 1 && RectInFrame() && top <= j <= bottom
      requires g == View(mark) && pp == Priorities(Grids(), winX, winY) && IsGrid(p0, width, height)
      requires InitScan(g, pp, p0, left, j)
      modifies pri
      ensures InitScan(g, pp, p0, left, j + 1)
    {
      var i := left;
      while i <= right
        invariant left <= right ==> left <= i <= right + 1
        invariant g == View(mark) && pp == Priorities(Grids(), winX, winY)
        invariant InitScan(g, pp, p0, i, j)
      {
        InitCell(i, j, g, pp, p0);
        i := i + 1;
      }
      assert forall y, x :: InRect(x, y) ==> (Before(x, y, i, j) <==> Before(x, y, left, j + 1));
    }

    method InitCell(i: int, j: int, ghost g: Plane<byte>, ghost pp: Plane<int>, ghost p0: Plane<int>)
      requires Valid() && width >= 2 && height >= 2 && winX >= 1 && winY >= 1 && RectInFrame() && InRect(i, j)
      requires g == View(mark) && pp == Priorities(Grids(), winX, winY) && IsGrid(p0, width, height)
      requires InitScan(g, pp, p0, i, j)
      modifies pri
      ensures Grids() == old(Grids())
      ensures InitScan(g, pp, p0, i + 1, j)
    {
      if mark[j, i] == BOUNDARY {
        var q := CellPriority(i, j);
        assert g[j][i] == BOUNDARY && q == pp[j][i];
        StoreInit(i, j, q, g, pp, p0);
      } else {
        assert forall y, x :: InRect(x, y) && (x, y) != (i, j) ==> (Before(x, y, i, j) <==> Before(x, y, i + 1, j));
      }
    }

    /** Stores the priority `q` of the BOUNDARY cell `(i, j)`. */
    method StoreInit(i: int, j: int, q: int, ghost g: Plane<byte>, ghost pp: Plane<int>, ghost p0: Plane<int>)
      requires Valid() && IsGrid(g, width, height) && IsGrid(pp, width, height) && IsGrid(p0, width, height)
      requires RectInFrame() && InRect(i, j) && g[j][i] == BOUNDARY && q == pp[j][i]
      requires InitScan(g, pp, p0, i, j)
      modifies pri
      ensures InitScan(g, pp, p0, i + 1, j)
    {
      pri[j, i] := q;
      assert forall y, x :: InRect(x, y) && (x, y) != (i, j) ==> (Before(x, y, i, j) <==> Before(x, y, i + 1, j));
    }

    /** One step of `process3planes` once the cell `(priX, priY)` is chosen:
        search a donor; when there is one, fill the window from it, repair
        the boundary and refresh the priorities around it. */
    method FillStep(main: array2<byte>, u: array2<byte>, v: array2<byte>, ghost g: Plane<byte>) returns (found: bool, ghost g1: Plane<byte>)
      requires Running(main, u, v) && maxPri >= 0 && g == View(mark)
      modifies mark, confid, pri, gray, main, u, v, `maxPri, `priX, `priY
      ensures Running(main, u, v) && g1 == View(mark)
      ensures forall y, x :: 0 <= y < height && 0 <= x < width && g[y][x] == SOURCE ==> g1[y][x] == SOURCE
      ensures found ==> CountIf(g1, Frontier.IsNotSource) < CountIf(g, Frontier.IsNotSource)
      ensures !found ==> g1 == g
      ensures !found ==> Stalled(main, u, v, g1)
    {
      var tx, ty := priX, priY;
      ghost var st, l0, fr0, p0, m0, src := Setup(), Grids(), Pic(main, u, v), View(pri), maxPri, View(source);
      assert LoopState(st, l0, p0, src, fr0, m0, tx, ty);
      assert DonorsOk();
      var patchX, patchY;
      found, patchX, patchY := PatchTexture(tx, ty, main, u, v);
      if !found {
        return found, g;
      }
      var conf := ComputeConfidence(tx, ty);
      Advance(st, l0, fr0, p0, m0, src, tx, ty, patchX, patchY, conf, main, u, v);
      g1 := View(mark);
    }

    /** A step once the donor `(sx, sy)` of the cell `(tx, ty)` is found,
        from the sizes `st`, grids `l0`, picture `fr0`, stored priorities
        `p0`, stored maximum `m0` and donor centres `src` of the loop state. */
    method Advance(ghost st: Setting, ghost l0: Layers, ghost fr0: Frame, ghost p0: Plane<int>, ghost m0: int, ghost src: Plane<byte>,
                   tx: int, ty: int, sx: int, sy: int, conf: int, main: array2<byte>, u: array2<byte>, v: array2<byte>)
      requires Valid() && PictureOk(main, u, v) && width >= 2 && height >= 2 && winX >= 1 && winY >= 1
      requires st == Setup() && l0 == Grids() && fr0 == Pic(main, u, v) && p0 == View(pri) && m0 == maxPri && src == View(source)
      requires LoopState(st, l0, p0, src, fr0, m0, tx, ty) && m0 >= 0 && 0 <= conf <= FULL_CONFIDENCE
      requires InFrame(tx, ty, width, height) && Search.DonorAt(View(mark), width, height, winX, winY, sx, sy)
      modifies mark, confid, pri, gray, main, u, v, `maxPri, `priX, `priY
      ensures Running(main, u, v)
      ensures forall y, x :: 0 <= y < height && 0 <= x < width && l0.mark[y][x] == SOURCE ==> View(mark)[y][x] == SOURCE
      ensures CountIf(View(mark), Frontier.IsNotSource) < CountIf(l0.mark, Frontier.IsNotSource)
    {
      ghost var l1, fr1 := Refill(st, l0, fr0, tx, ty, sx, sy, conf, main, u, v);
      Reprioritize(st, l0, fr0, p0, m0, src, l1, fr1, tx, ty, sx, sy, conf, main, u, v);
    }

    /** The end of a step, once the donor window is copied into the grids
        `l1` and the picture `fr1` and the boundary is repaired: refresh the
        priorities near `(tx, ty)`. */
    method Reprioritize(ghost st: Setting, ghost l0: Layers, ghost fr0: Frame, ghost p0: Plane<int>, ghost m0: int, ghost src: Plane<byte>,
                        ghost l1: Layers, ghost fr1: Frame, tx: int, ty: int, ghost sx: int, ghost sy: int, ghost conf: int,
                        ghost main: array2<byte>, ghost u: array2<byte>, ghost v: array2<byte>)
      requires Valid() && width >= 2 && height >= 2 && winX >= 1 && winY >= 1 && InFrame(tx, ty, width, height)
      requires PictureOk(main, u, v) && Pic(main, u, v) == fr1
      requires st == Setup() && p0 == View(pri) && m0 == maxPri && src == View(source)
      requires LoopState(st, l0, p0, src, fr0, m0, tx, ty) && m0 >= 0 && 0 <= conf <= FULL_CONFIDENCE
      requires Patch.PatchedLayers(l0, l1, st.wx, st.wy, tx, ty, sx, sy, conf)
      requires Patch.PatchedPixels(st.f, fr0, fr1, st.w, st.h, l0.mark, st.wx, st.wy, tx, ty, sx, sy)
      requires var b2 := Window(tx, ty, st.wx + 2, st.wy + 2, st.w, st.h);
        Grids() == Layers(Frontier.Relabelled(l1.mark, st.w, st.h, b2.x0, b2.x1, b2.y0, b2.y1), l1.confid, l1.gray, st.w, st.h)
      modifies pri, `maxPri, `priX, `priY
      ensures Running(main, u, v)
      ensures forall y, x :: 0 <= y < height && 0 <= x < width && l0.mark[y][x] == SOURCE ==> View(mark)[y][x] == SOURCE
      ensures CountIf(View(mark), Frontier.IsNotSource) < CountIf(l0.mark, Frontier.IsNotSource)
    {
      ghost var l2 := Grids();
      var r;
      ghost var pp, p3;
      r, pp, p3 := Refresh(st, l2, p0, m0, tx, ty);
      StepKeeps(st, l0, p0, src, fr0, m0, l1, fr1, l2, pp, p3, r, priX, priY, tx, ty, sx, sy, conf);
      assert Setup() == st && Grids() == l2 && View(pri) == p3 && View(source) == src && Pic(main, u, v) == fr1;
    }

    /** The filling half of a step, from the grids `l0` and the picture
        `fr0`: copy the donor window and repair the boundary around it; `l1`
        and `fr1` are the grids and the picture right after the copy. */
    method Refill(ghost st: Setting, ghost l0: Layers, ghost fr0: Frame, tx: int, ty: int, sx: int, sy: int, conf: int,
                  main: array2<byte>, u: array2<byte>, v: array2<byte>)
      returns (ghost l1: Layers, ghost fr1: Frame)
      requires Valid() && PictureOk(main, u, v) && width >= 2 && height >= 2 && winX >= 1 && winY >= 1
      requires st == Setup() && l0 == Grids() && fr0 == Pic(main, u, v)
      requires InFrame(tx, ty, width, height) && Search.DonorAt(View(mark), width, height, winX, winY, sx, sy)
      modifies mark, gray, confid, main, u, v
      ensures Patch.PatchedLayers(l0, l1, st.wx, st.wy, tx, ty, sx, sy, conf)
      ensures Patch.PatchedPixels(st.f, fr0, fr1, st.w, st.h, l0.mark, st.wx, st.wy, tx, ty, sx, sy)
      ensures var b2 := Window(tx, ty, st.wx + 2, st.wy + 2, st.w, st.h);
        Grids() == Layers(Frontier.Relabelled(l1.mark, st.w, st.h, b2.x0, b2.x1, b2.y0, b2.y1), l1.confid, l1.gray, st.w, st.h)
      ensures Pic(main, u, v) == fr1
    {
      assert st.f == format && st.w == width && st.h == height && st.wx == winX && st.wy == winY;
      Update(tx, ty, sx, sy, conf, main, u, v, l0, fr0);
      l1, fr1 := Grids(), Pic(main, u, v);
      UpdateBoundary(tx, ty);
    }

    /** The refresh half of a step, `max_pri = UpdatePri(pri_x, pri_y)`,
        from the grids `l2`, the stored priorities `p0` and the stored
        maximum `m0`: `pp` are the priorities of `l2`, `p3` the stored
        priorities afterwards, and the stored maximum becomes the result. */
    method Refresh(ghost st: Setting, ghost l2: Layers, ghost p0: Plane<int>, ghost m0: int, tx: int, ty: int)
      returns (r: int, ghost pp: Plane<int>, ghost p3: Plane<int>)
      requires Valid() && width >= 2 && height >= 2 && winX >= 1 && winY >= 1 && InFrame(tx, ty, width, height)
      requires st == Setup() && l2 == Grids() && p0 == View(pri) && m0 == maxPri
      modifies pri, `maxPri, `priX, `priY
      ensures Setup() == st && maxPri == r && View(pri) == p3
      ensures Grids() == old(Grids()) && View(source) == old(View(source))
      ensures pp == Priorities(l2, st.wx, st.wy)
      ensures p3 == Refreshed(l2.mark, pp, Window(tx, ty, st.wx + 3, st.wy + 3, st.w, st.h), p0, st.w, st.h)
      ensures var b3 := Window(tx, ty, st.wx + 3, st.wy + 3, st.w, st.h);
        r >= 0 ==> (r >= m0 && b3.Contains(priX, priY) && l2.mark[priY][priX] == BOUNDARY && pp[priY][priX] == r &&
          forall y, x :: b3.Contains(x, y) && l2.mark[y][x] == BOUNDARY ==> pp[y][x] <= r)
    {
      pp := Priorities(Grids(), winX, winY);
      assert l2.mark == View(mark) && st.wx == winX && st.wy == winY && st.w == width && st.h == height;
      ghost var b3 := Window(tx, ty, winX + 3, winY + 3, width, height);
      r := UpdatePri(tx, ty);
      p3 := View(pri);
      assert b3 == Window(tx, ty, winX + 3, winY + 3, width, height);
      assert p3 == Refreshed(old(View(mark)), old(Priorities(Grids(), winX, winY)), b3, old(View(pri)), width, height);
      assert b3 == Window(tx, ty, st.wx + 3, st.wy + 3, st.w, st.h);
      maxPri := r;
    }
    /** `process3planes`: set up the grids from the picture and the mask,
        then fill until no cell of the rectangle is left, `maxsteps` steps
        are done, or no donor is found for the chosen cell (`stalled`).
        The count of steps is never negative: with a cell left to fill
        there is always a BOUNDARY cell with a priority, so the bad-mask
        return never happens. Each step that finds a donor fills at least
        one cell, and a cell once SOURCE stays SOURCE. */
    method Process3Planes(main: array2<byte>, u: array2<byte>, v: array2<byte>, mask: Frame,
                          xsize: int, ysize: int, radius0: int, maskcolor0: int, flags: int, maxsteps: int)
      returns (count: int, ghost stalled: bool, ghost g: Plane<byte>, ghost marks: Plane<byte>)
      requires Valid() && PictureOk(main, u, v) && MaskOk(format, mask, width, height)
      requires width >= 2 && height >= 2 && xsize >= 2 && ysize >= 2
      requires radius0 == 0 ==> Erodible(SetupMarks(format, Pic(main, u, v), mask, maskcolor0, flags, width, height), width, height)
      modifies this, mark, confid, pri, gray, source, main, u, v
      ensures g == SetupMarks(format, old(Pic(main, u, v)), mask, maskcolor0, flags, width, height)
      ensures Running(main, u, v) && marks == View(mark)
      ensures winX == xsize / 2 && winY == ysize / 2 && maskcolor == maskcolor0 && dilateFlags == flags
      ensures radius == if radius0 == 0 then Max(ErosionRounds(g, width, height) + 5, Min(xsize / 2, ysize / 2) * 4) else radius0
      ensures 0 <= count <= Max(maxsteps, 0) && (stalled ==> count >= 1)
      ensures forall y, x :: 0 <= y < height && 0 <= x < width && g[y][x] == SOURCE ==> marks[y][x] == SOURCE
      ensures count + CountIf(marks, Frontier.IsNotSource) <= CountIf(g, Frontier.IsNotSource) + (if stalled then 1 else 0)
      ensures !stalled && count < maxsteps ==> forall y, x :: 0 <= y < height && 0 <= x < width ==> marks[y][x] == SOURCE
      ensures count <= CountIf(g, Frontier.IsNotSource) && (CountIf(g, Frontier.IsNotSource) == 0 ==> count == 0 && !stalled)
      ensures stalled ==> Stalled(main, u, v, marks)
    {
      g := SetupMarks(format, Pic(main, u, v), mask, maskcolor0, flags, width, height);
      Prepare(main, u, v, mask, xsize, ysize, radius0, maskcolor0, flags, g);
      count, stalled, marks := FillFrom(main, u, v, maxsteps, g);
    }

    /** The fill loop from the first boundary of the marks `g` of the mask:
        the counts are stated against `g`, whose SOURCE cells the boundary
        keeps. */
    method FillFrom(main: array2<byte>, u: array2<byte>, v: array2<byte>, maxsteps: int, ghost g: Plane<byte>)
      returns (count: int, ghost stalled: bool, ghost marks: Plane<byte>)
      requires Running(main, u, v) && OnlySourceTarget(g, width, height) && View(mark) == Bordered(g, width, height)
      modifies mark, confid, pri, gray, main, u, v, `maxPri, `priX, `priY
      ensures winX == old(winX) && winY == old(winY) && radius == old(radius) && maskcolor == old(maskcolor) && dilateFlags == old(dilateFlags)
      ensures Running(main, u, v) && marks == View(mark)
      ensures 0 <= count <= Max(maxsteps, 0) && (stalled ==> count >= 1)
      ensures forall y, x :: 0 <= y < height && 0 <= x < width && g[y][x] == SOURCE ==> marks[y][x] == SOURCE
      ensures count + CountIf(marks, Frontier.IsNotSource) <= CountIf(g, Frontier.IsNotSource) + (if stalled then 1 else 0)
      ensures !stalled && count < maxsteps ==> forall y, x :: 0 <= y < height && 0 <= x < width ==> marks[y][x] == SOURCE
      ensures count <= CountIf(g, Frontier.IsNotSource) && (CountIf(g, Frontier.IsNotSource) == 0 ==> count == 0 && !stalled)
      ensures stalled ==> Stalled(main, u, v, marks)
    {
      ghost var g1 := View(mark);
      BorderedRule(g, width, height);
      SameSourcesCount(g, g1, width, height);
      count, stalled, marks := FillLoop(main, u, v, maxsteps, g1);
    }

    /** The set-up half of `process3planes`: the half-window sizes, the
        gray image, the marks from the mask (dilated when `flags` is not 0),
        the search radius (estimated when `radius0` is 0), the first
        boundary and its rectangle, the donor centres and the first
        priorities; no maximum is stored yet. */
    method Prepare(main: array2<byte>, u: array2<byte>, v: array2<byte>, mask: Frame,
                   xsize: int, ysize: int, radius0: int, maskcolor0: int, flags: int, ghost g: Plane<byte>)
      requires Valid() && PictureOk(main, u, v) && MaskOk(format, mask, width, height)
      requires width >= 2 && height >= 2 && xsize >= 2 && ysize >= 2
      requires g == SetupMarks(format, Pic(main, u, v), mask, maskcolor0, flags, width, height)
      requires radius0 == 0 ==> Erodible(g, width, height)
      modifies this, mark, confid, pri, gray, source
      ensures Running(main, u, v) && maxPri == -1
      ensures winX == xsize / 2 && winY == ysize / 2 && maskcolor == maskcolor0 && dilateFlags == flags
      ensures View(mark) == Bordered(g, width, height)
      ensures radius == if radius0 == 0 then Max(ErosionRounds(g, width, height) + 5, Min(xsize / 2, ysize / 2) * 4) else radius0
    {
      ghost var fr := Pic(main, u, v);
      Configure(xsize, ysize, radius0, maskcolor0, flags);
      Build(main, u, v, mask, fr, g);
    }

    /** The parameters of `process3planes` stored: half-window sizes, given
        radius, mask colour and dilation flags; the rectangle is empty and
        no maximum is stored. */
    method Configure(xsize: int, ysize: int, radius0: int, maskcolor0: int, flags: int)
      modifies `winX, `winY, `radius, `maskcolor, `dilateFlags, `top, `bottom, `left, `right, `maxPri
      ensures winX == xsize / 2 && winY == ysize / 2 && radius == radius0 && maskcolor == maskcolor0 && dilateFlags == flags
      ensures top == height && bottom == 0 && left == width && right == 0 && maxPri == -1
    {
      winX, winY := xsize / 2, ysize / 2;
      radius, maskcolor, dilateFlags := radius0, maskcolor0, flags;
      top, bottom, left, right := height, 0, width, 0;
      maxPri := -1;
    }

    /** The grids of the set-up, once the half-window sizes, the mask colour,
        the dilation flags and the given radius are stored and the rectangle
        is empty: from the picture `fr` and the marks `g` of its mask. */
    method Build(main: array2<byte>, u: array2<byte>, v: array2<byte>, mask: Frame, ghost fr: Frame, ghost g: Plane<byte>)
      requires Valid() && PictureOk(main, u, v) && MaskOk(format, mask, width, height)
      requires width >= 2 && height >= 2 && winX >= 1 && winY >= 1 && maxPri == -1
      requires top == height && bottom == 0 && left == width && right == 0
      requires fr == Pic(main, u, v) && g == SetupMarks(format, fr, mask, maskcolor, dilateFlags, width, height)
      requires radius == 0 ==> Erodible(g, width, height)
      modifies mark, confid, pri, gray, source, `radius, `top, `bottom, `left, `right
      ensures Running(main, u, v) && View(mark) == Bordered(g, width, height)
      ensures radius == if old(radius) == 0 then Max(ErosionRounds(g, width, height) + 5, Min(winX, winY) * 4) else old(radius)
    {
      MarkMask(main, u, v, mask, fr, g);
      ghost var gr := View(gray);
      AutoRadius(g);
      DrawFront(g);
      StartRunning(main, u, v, g, fr, gr);
    }

    /** With `radius` 0, the automatic search radius for the marks `g`:
        the erosion rounds plus 5, but at least four times the smaller
        half-window size. */
    method AutoRadius(ghost g: Plane<byte>)
      requires Valid() && width >= 2 && height >= 2 && View(mark) == g && OnlySourceTarget(g, width, height)
      requires radius == 0 ==> Erodible(g, width, height)
      modifies mark, `radius
      ensures View(mark) == g
      ensures radius == if old(radius) == 0 then Max(ErosionRounds(g, width, height) + 5, Min(winX, winY) * 4) else old(radius)
    {
      if radius == 0 {
        var iter := EstimateRadius();
        radius := Max(iter + 5, Min(winX, winY) * 4);
      }
    }

    /** The gray image of the picture `fr`, then the marks `g` and the
        confidences of the mask, dilated when the dilation flags are not 0. */
    method MarkMask(main: array2<byte>, u: array2<byte>, v: array2<byte>, mask: Frame, ghost fr: Frame, ghost g: Plane<byte>)
      requires Valid() && PictureOk(main, u, v) && MaskOk(format, mask, width, height)
      requires fr == Pic(main, u, v) && g == SetupMarks(format, fr, mask, maskcolor, dilateFlags, width, height)
      modifies mark, confid, gray
      ensures GrayIsLuma(format, fr, View(gray), width, height) && View(mark) == g
      ensures forall y, x :: 0 <= y < height && 0 <= x < width ==> 0 <= confid[y, x] <= FULL_CONFIDENCE
    {
      Convert2Gray(main, u, v);
      Zero(confid);
      GetMask(main, u, v, mask);
      if dilateFlags != 0 {
        Dilate(dilateFlags);
      }
    }

    /** The first boundary, from the marks `g` of the mask: the rectangle
        grows from empty to hold every cell to fill, the donor centres are
        recorded, and the priorities are cleared and then computed for the
        BOUNDARY cells of the rectangle. */
    method DrawFront(ghost g: Plane<byte>)
      requires Valid() && width >= 2 && height >= 2 && winX >= 1 && winY >= 1
      requires View(mark) == g && OnlySourceTarget(g, width, height)
      requires top == height && bottom == 0 && left == width && right == 0
      modifies mark, source, pri, `top, `bottom, `left, `right
      ensures View(mark) == Bordered(g, width, height)
      ensures RectInFrame() && forall y, x :: 0 <= y < height && 0 <= x < width && mark[y, x] != SOURCE ==> InRect(x, y)
      ensures forall y, x :: 0 <= y < height && 0 <= x < width ==>
        source[y, x] == if Search.DonorAt(View(mark), width, height, winX, winY, x, y) then 1 else 0
      ensures forall y, x :: 0 <= y < height && 0 <= x < width ==>
        pri[y, x] == if InRect(x, y) && mark[y, x] == BOUNDARY then PriorityAt(Grids(), winX, winY, x, y) else 0
    {
      DrawBoundary();
      CoveredRect(g);
      StartSearch();
    }

    /** Records the donor sites of the marks and the first priorities: each
        BOUNDARY cell of the rectangle gets its priority, every other cell
        priority 0. */
    method StartSearch()
      requires Valid() && width >= 2 && height >= 2 && winX >= 1 && winY >= 1 && RectInFrame()
      modifies source, pri
      ensures forall y, x :: 0 <= y < height && 0 <= x < width ==>
        source[y, x] == if Search.DonorAt(View(mark), width, height, winX, winY, x, y) then 1 else 0
      ensures forall y, x :: 0 <= y < height && 0 <= x < width ==>
        pri[y, x] == if InRect(x, y) && mark[y, x] == BOUNDARY then PriorityAt(Grids(), winX, winY, x, y) else 0
    {
      DrawSource();
      Zero(pri);
      InitPriorities();
    }

    /** After the boundary is first drawn from the marks `g0`, the
        rectangle lies in the frame and holds every TARGET cell of `g0`. */
    lemma CoveredRect(g0: Plane<byte>)
      requires Valid() && width >= 1 && height >= 1 && IsGrid(g0, width, height)
      requires RectCovers(g0, height, 0, width, 0, height, 0)
      ensures RectInFrame()
      ensures forall y, x :: 0 <= y < height && 0 <= x < width && g0[y][x] == TARGET ==> InRect(x, y)
    {
    }

    /** The state the set-up leaves is a loop state. */
    lemma StartRunning(main: array2<byte>, u: array2<byte>, v: array2<byte>, g: Plane<byte>, fr: Frame, gr: Plane<byte>)
      requires Valid() && PictureOk(main, u, v) && width >= 2 && height >= 2 && winX >= 1 && winY >= 1 && maxPri == -1
      requires OnlySourceTarget(g, width, height) && View(mark) == Bordered(g, width, height)
      requires RectInFrame() && forall y, x :: 0 <= y < height && 0 <= x < width && mark[y, x] != SOURCE ==> InRect(x, y)
      requires forall y, x :: 0 <= y < height && 0 <= x < width ==> 0 <= confid[y, x] <= FULL_CONFIDENCE
      requires forall y, x :: 0 <= y < height && 0 <= x < width ==>
        source[y, x] == if Search.DonorAt(View(mark), width, height, winX, winY, x, y) then 1 else 0
      requires forall y, x :: 0 <= y < height && 0 <= x < width ==>
        pri[y, x] == if InRect(x, y) && mark[y, x] == BOUNDARY then PriorityAt(Grids(), winX, winY, x, y) else 0
      requires Pic(main, u, v) == fr && View(gray) == gr && GrayIsLuma(format, fr, gr, width, height)
      ensures Running(main, u, v)
    {
      BorderedRule(g, width, height);
      forall y, x | 0 <= y < height && 0 <= x < width
        ensures pri[y, x] >= 0
      {
        PriorityBounded(Grids(), winX, winY, x, y);
      }
    }

    /** The fill half of `process3planes`: steps until no cell of the
        rectangle is left, `maxsteps` steps are done, or a step finds no
        donor (`stalled`). */
    method FillLoop(main: array2<byte>, u: array2<byte>, v: array2<byte>, maxsteps: int, ghost g0: Plane<byte>)
      returns (count: int, ghost stalled: bool, ghost g: Plane<byte>)
      requires Running(main, u, v) && g0 == View(mark)
      modifies mark, confid, pri, gray, main, u, v, `maxPri, `priX, `priY
      ensures Running(main, u, v) && g == View(mark)
      ensures 0 <= count <= Max(maxsteps, 0) && (stalled ==> count >= 1)
      ensures forall y, x :: 0 <= y < height && 0 <= x < width && g0[y][x] == SOURCE ==> g[y][x] == SOURCE
      ensures count + CountIf(g, Frontier.IsNotSource) <= CountIf(g0, Frontier.IsNotSource) + (if stalled then 1 else 0)
      ensures !stalled && count < maxsteps ==> forall y, x :: 0 <= y < height && 0 <= x < width ==> g[y][x] == SOURCE
      ensures count <= CountIf(g0, Frontier.IsNotSource) && (CountIf(g0, Frontier.IsNotSource) == 0 ==> count == 0 && !stalled)
      ensures stalled ==> Stalled(main, u, v, g)
    {
      ghost var st := Setup();
      ghost var n0 := CountIf(g0, Frontier.IsNotSource);
      g := g0;
      count, stalled := 0, false;
      var more, tx, ty := TargetLeft(st, g);
      while more && count < maxsteps
        invariant Running(main, u, v) && g == View(mark)
        invariant 0 <= count <= Max(maxsteps, 0)
        invariant forall y, x :: 0 <= y < height && 0 <= x < width && g0[y][x] == SOURCE ==> g[y][x] == SOURCE
        invariant count + CountIf(g, Frontier.IsNotSource) <= n0
        invariant more ==> InFrame(tx, ty, width, height) && g[ty][tx] != SOURCE
        invariant !more ==> forall y, x :: 0 <= y < height && 0 <= x < width ==> g[y][x] == SOURCE
        decreases maxsteps - count
      {
        CountPositive(g, Frontier.IsNotSource, width, tx, ty);
        count := count + 1;
        var ready, found;
        ready, found, more, g, tx, ty := Iteration(main, u, v, g, tx, ty);
        if !ready {
          assert false;
          return -count, stalled, g;
        }
        if !found {
          stalled := true;
          assert forall y, x :: 0 <= y < height && 0 <= x < width && g0[y][x] == SOURCE ==> g[y][x] == SOURCE;
          return;
        }
      }
    }

    /** The body of the fill loop while the cell `(tx, ty)` of the marks
        `g` is left to fill: find the cell of highest priority when none is
        stored (`ready`: one is), then fill from the best donor when one
        is `found`; `g1` are the marks afterwards. */
    method Iteration(main: array2<byte>, u: array2<byte>, v: array2<byte>, ghost g: Plane<byte>, ghost tx: int, ghost ty: int)
      returns (ready: bool, found: bool, more: bool, ghost g1: Plane<byte>, ghost tx1: int, ghost ty1: int)
      requires Running(main, u, v) && g == View(mark) && InFrame(tx, ty, width, height) && g[ty][tx] != SOURCE
      modifies mark, confid, pri, gray, main, u, v, `maxPri, `priX, `priY
      ensures Running(main, u, v) && g1 == View(mark) && ready
      ensures forall y, x :: 0 <= y < height && 0 <= x < width && g[y][x] == SOURCE ==> g1[y][x] == SOURCE
      ensures found ==> CountIf(g1, Frontier.IsNotSource) < CountIf(g, Frontier.IsNotSource)
      ensures !found ==> g1 == g
      ensures !found ==> Stalled(main, u, v, g1)
      ensures found && more ==> InFrame(tx1, ty1, width, height) && g1[ty1][tx1] != SOURCE
      ensures found && !more ==> forall y, x :: 0 <= y < height && 0 <= x < width ==> g1[y][x] == SOURCE
    {
      if maxPri < 0 {
        Choose(main, u, v, g, tx, ty);
      }
      ready := maxPri >= 0;
      found, more, g1, tx1, ty1 := false, false, g, 0, 0;
      if ready {
        found, more, g1, tx1, ty1 := FillAndScan(main, u, v, g);
      }
    }

    /** A step from the stored cell of highest priority, then, when a donor
        was `found`, `TargetExist` on the new marks `g1`: `more` tells
        whether a cell `(tx1, ty1)` is left to fill. */
    method FillAndScan(main: array2<byte>, u: array2<byte>, v: array2<byte>, ghost g: Plane<byte>)
      returns (found: bool, more: bool, ghost g1: Plane<byte>, ghost tx1: int, ghost ty1: int)
      requires Running(main, u, v) && maxPri >= 0 && g == View(mark)
      modifies mark, confid, pri, gray, main, u, v, `maxPri, `priX, `priY
      ensures Running(main, u, v) && g1 == View(mark)
      ensures forall y, x :: 0 <= y < height && 0 <= x < width && g[y][x] == SOURCE ==> g1[y][x] == SOURCE
      ensures found ==> CountIf(g1, Frontier.IsNotSource) < CountIf(g, Frontier.IsNotSource)
      ensures !found ==> g1 == g
      ensures !found ==> Stalled(main, u, v, g1)
      ensures found && more ==> InFrame(tx1, ty1, width, height) && g1[ty1][tx1] != SOURCE
      ensures found && !more ==> forall y, x :: 0 <= y < height && 0 <= x < width ==> g1[y][x] == SOURCE
    {
      found, g1 := FillStep(main, u, v, g);
      more, tx1, ty1 := false, 0, 0;
      if found {
        ghost var st := Setup();
        more, tx1, ty1 := TargetLeft(st, g1);
      }
    }

    /** `TargetExist` on the sizes `st` and the marks `g`, stated on those
        values. */
    method TargetLeft(ghost st: Setting, ghost g: Plane<byte>) returns (b: bool, ghost tx: int, ghost ty: int)
      requires Valid() && st == Setup() && g == View(mark) && st.RectInFrame()
      requires forall y, x :: 0 <= y < st.h && 0 <= x < st.w && g[y][x] != SOURCE ==> st.InRect(x, y)
      ensures b ==> InFrame(tx, ty, st.w, st.h) && g[ty][tx] != SOURCE
      ensures !b ==> forall y, x :: 0 <= y < st.h && 0 <= x < st.w ==> g[y][x] == SOURCE
    {
      b := TargetExist();
      tx, ty := 0, 0;
      if b {
        ty, tx :| InRect(tx, ty) && mark[ty, tx] != SOURCE;
      }
    }

    /** `max_pri = HighestPriority()` while the cell `(tx, ty)` is left to
        fill: the stored maximum found is at least 0. */
    method Choose(main: array2<byte>, u: array2<byte>, v: array2<byte>, ghost g: Plane<byte>, ghost tx: int, ghost ty: int)
      requires Running(main, u, v) && g == View(mark) && InFrame(tx, ty, width, height) && g[ty][tx] != SOURCE
      modifies `maxPri, `priX, `priY
      ensures Running(main, u, v) && g == View(mark) && maxPri >= 0
    {
      ghost var st, l, p, src, fr := Setup(), Grids(), View(pri), View(source), Pic(main, u, v);
      var m;
      ghost var px, py;
      m, px, py := ChooseCell(st, l, p, src, fr, tx, ty);
      RunningFrom(main, u, v, st, l, p, src, fr);
    }

    /** `max_pri = HighestPriority()` while the cell `(tx, ty)` of the
        rectangle is left to fill, from the sizes `st`, grids `l`, stored
        priorities `p`, donor centres `src` and picture `fr` of the loop
        state: the stored maximum `m` found at `(px, py)` is at least 0 and
        keeps the loop state. */
    method ChooseCell(ghost st: Setting, ghost l: Layers, ghost p: Plane<int>, ghost src: Plane<byte>, ghost fr: Frame,
                      ghost tx: int, ghost ty: int) returns (m: int, ghost px: int, ghost py: int)
      requires Valid() && st == Setup() && l == Grids() && p == View(pri)
      requires LoopState(st, l, p, src, fr, maxPri, priX, priY)
      requires InFrame(tx, ty, st.w, st.h) && l.mark[ty][tx] != SOURCE
      modifies `maxPri, `priX, `priY
      ensures LoopState(st, l, p, src, fr, m, px, py) && m >= 0 && maxPri == m && priX == px && priY == py
    {
      ghost var m0, px0, py0 := maxPri, priX, priY;
      ghost var cx, cy := BoundaryLeft(st, l, p, src, fr, m0, px0, py0, tx, ty);
      m := Highest(st, l, p);
      px, py := priX, priY;
      ChosenKeeps(st, l, p, src, fr, m0, px0, py0, m, px, py);
      maxPri := m;
    }

    /** `HighestPriority` on the grids `l` and stored priorities `p` of the
        sizes `st`, stated on those values. */
    method Highest(ghost st: Setting, ghost l: Layers, ghost p: Plane<int>) returns (m: int)
      requires Valid() && st == Setup() && l == Grids() && p == View(pri) && st.RectInFrame()
      modifies `priX, `priY
      ensures m >= -1
      ensures forall y, x :: 0 <= y < st.h && 0 <= x < st.w && st.InRect(x, y) && l.mark[y][x] == BOUNDARY ==> p[y][x] <= m
      ensures m != -1 ==>
        InFrame(priX, priY, st.w, st.h) && st.InRect(priX, priY) && l.mark[priY][priX] == BOUNDARY && p[priY][priX] == m
    {
      m := HighestPriority();
      assert Grids() == l && View(pri) == p && Setup() == st;
    }

    /** The loop state read off the engine's fields and grids and the
        caller's picture. */
    lemma RunningFrom(main: array2<byte>, u: array2<byte>, v: array2<byte>,
                      st: Setting, l: Layers, p: Plane<int>, src: Plane<byte>, fr: Frame)
      requires Valid() && PictureOk(main, u, v)
      requires st == Setup() && l == Grids() && p == View(pri) && src == View(source) && fr == Pic(main, u, v)
      requires LoopState(st, l, p, src, fr, maxPri, priX, priY)
      ensures Running(main, u, v)
    {
    }

  }

  /** Sets every cell of `a` to 0, as the engine's `memset` does. */
  method Zero(a: array2<int>)
    modifies a
    ensures forall y, x :: 0 <= y < a.Length0 && 0 <= x < a.Length1 ==> a[y, x] == 0
  {
    for y := 0 to a.Length0
      invariant forall y', x :: 0 <= y' < y && 0 <= x < a.Length1 ==> a[y', x] == 0
    {
      for x := 0 to a.Length1
        invariant forall y', x' :: 0 <= y' < y && 0 <= x' < a.Length1 ==> a[y', x'] == 0
        invariant forall x' :: 0 <= x' < x ==> a[y, x'] == 0
      {
        a[y, x] := 0;
      }
    }
  }

  /** The sizes a fill loop runs with: the pixel layout, the frame, the
      half-window and the rectangle `[left, right] x [top, bottom]` that
      held the cells to fill when the loop began. */
  datatype Setting = Setting(f: EngineFormat, w: int, h: int, wx: int, wy: int, top: int, bottom: int, left: int, right: int)
  {
    predicate InRect(x: int, y: int)
    {
      top <= y <= bottom && left <= x <= right
    }

    /** The rows and the columns of the rectangle, when there are any, lie
        in the frame. */
    predicate RectInFrame()
    {
      (top <= bottom ==> 0 <= top && bottom < h) && (left <= right ==> 0 <= left && right < w)
    }
  }

  /** What holds between steps of the fill loop, for the grids `l`, the
      stored priorities `p`, the donor centres `src`, the picture `fr` and
      the stored maximum `m` at `(px, py)`: the rectangle holds every cell
      still to fill, the boundary rule holds, confidences and stored
      priorities are in range, every recorded donor centre is still a
      donor, the gray grid is the luma of the picture, and the stored
      maximum, when there is one, is the stored priority of the BOUNDARY
      cell `(px, py)` and no BOUNDARY cell has a higher one, so a step
      that skips the global scan picks a cell the scan could pick. */
  ghost predicate LoopState(s: Setting, l: Layers, p: Plane<int>, src: Plane<byte>, fr: Frame, m: int, px: int, py: int)
  {
    LayersOk(l) && l.w == s.w && l.h == s.h && IsGrid(p, s.w, s.h) && IsGrid(src, s.w, s.h) &&
    s.wx >= 1 && s.wy >= 1 && s.RectInFrame() &&
    (forall y, x :: 0 <= y < s.h && 0 <= x < s.w && l.mark[y][x] != SOURCE ==> s.InRect(x, y)) &&
    Frontier.BoundaryRule(l.mark, s.w, s.h) && ConfidBounded(l) &&
    (forall y, x :: 0 <= y < s.h && 0 <= x < s.w ==> p[y][x] >= 0) &&
    (forall y, x :: 0 <= y < s.h && 0 <= x < s.w && src[y][x] != 0 ==> Search.DonorAt(l.mark, s.w, s.h, s.wx, s.wy, x, y)) &&
    GrayIsLuma(s.f, fr, l.gray, s.w, s.h) &&
    (m >= 0 ==>
       InFrame(px, py, s.w, s.h) && l.mark[py][px] == BOUNDARY && p[py][px] == m &&
       forall y, x :: 0 <= y < s.h && 0 <= x < s.w && l.mark[y][x] == BOUNDARY ==> p[y][x] <= m)
  }

  /** In a loop state with the cell `(tx, ty)` left to fill, the
      rectangle holds a BOUNDARY cell `(cx, cy)`, whose stored priority is
      at least 0. */
  lemma BoundaryLeft(s: Setting, l: Layers, p: Plane<int>, src: Plane<byte>, fr: Frame, m: int, px: int, py: int,
                     tx: int, ty: int) returns (cx: int, cy: int)
    requires LoopState(s, l, p, src, fr, m, px, py)
    requires InFrame(tx, ty, s.w, s.h) && l.mark[ty][tx] != SOURCE
    ensures InFrame(cx, cy, s.w, s.h) && s.InRect(cx, cy) && l.mark[cy][cx] == BOUNDARY && p[cy][cx] >= 0
  {
    Frontier.BoundaryExists(l.mark, s.w, s.h, tx, ty);
    cy, cx :| 0 <= cy < s.h && 0 <= cx < s.w && l.mark[cy][cx] == BOUNDARY;
  }

  /** A loop state stays one when the stored maximum becomes `m` at
      `(px, py)`, a BOUNDARY cell of the rectangle whose stored priority
      is `m` and at least that of every BOUNDARY cell of the rectangle. */
  lemma ChosenKeeps(s: Setting, l: Layers, p: Plane<int>, src: Plane<byte>, fr: Frame, m0: int, px0: int, py0: int,
                    m: int, px: int, py: int)
    requires LoopState(s, l, p, src, fr, m0, px0, py0)
    requires s.InRect(px, py) && 0 <= py < s.h && 0 <= px < s.w && l.mark[py][px] == BOUNDARY && p[py][px] == m
    requires forall y, x :: 0 <= y < s.h && 0 <= x < s.w && s.InRect(x, y) && l.mark[y][x] == BOUNDARY ==> p[y][x] <= m
    ensures LoopState(s, l, p, src, fr, m, px, py)
  {
  }

  /** One step keeps the loop state and fills at least the chosen cell. */
  lemma StepKeeps(s: Setting, l0: Layers, p0: Plane<int>, src: Plane<byte>, fr0: Frame, m0: int,
                  l1: Layers, fr1: Frame, l2: Layers, pp: Plane<int>, p3: Plane<int>, r: int, px: int, py: int,
                  tx: int, ty: int, sx: int, sy: int, conf: int)
    requires LoopState(s, l0, p0, src, fr0, m0, tx, ty) && m0 >= 0 && 0 <= conf <= FULL_CONFIDENCE
    requires Patch.PatchedLayers(l0, l1, s.wx, s.wy, tx, ty, sx, sy, conf)
    requires Patch.PatchedPixels(s.f, fr0, fr1, s.w, s.h, l0.mark, s.wx, s.wy, tx, ty, sx, sy)
    requires var b2 := Window(tx, ty, s.wx + 2, s.wy + 2, s.w, s.h);
      l2 == Layers(Frontier.Relabelled(l1.mark, s.w, s.h, b2.x0, b2.x1, b2.y0, b2.y1), l1.confid, l1.gray, s.w, s.h)
    requires pp == Priorities(l2, s.wx, s.wy)
    requires p3 == Refreshed(l2.mark, pp, Window(tx, ty, s.wx + 3, s.wy + 3, s.w, s.h), p0, s.w, s.h)
    requires var b3 := Window(tx, ty, s.wx + 3, s.wy + 3, s.w, s.h);
      r >= 0 ==> (r >= m0 && b3.Contains(px, py) && l2.mark[py][px] == BOUNDARY && pp[py][px] == r &&
        forall y, x :: b3.Contains(x, y) && l2.mark[y][x] == BOUNDARY ==> pp[y][x] <= r)
    ensures LoopState(s, l2, p3, src, fr1, r, px, py)
    ensures forall y, x :: 0 <= y < s.h && 0 <= x < s.w && l0.mark[y][x] == SOURCE ==> l2.mark[y][x] == SOURCE
    ensures CountIf(l2.mark, Frontier.IsNotSource) < CountIf(l0.mark, Frontier.IsNotSource)
  {
    StepGrids(s, l0, p0, src, fr0, m0, l1, fr1, l2, tx, ty, sx, sy, conf);
    PrioritiesKept(s, l0, p0, m0, l2, pp, p3, r, px, py, tx, ty);
  }

  /** The grids after the copy and the repair of the boundary keep what a
      loop state asks of them, and only gain SOURCE cells, at least one. */
  lemma StepGrids(s: Setting, l0: Layers, p0: Plane<int>, src: Plane<byte>, fr0: Frame, m0: int,
                  l1: Layers, fr1: Frame, l2: Layers, tx: int, ty: int, sx: int, sy: int, conf: int)
    requires LoopState(s, l0, p0, src, fr0, m0, tx, ty) && m0 >= 0 && 0 <= conf <= FULL_CONFIDENCE
    requires Patch.PatchedLayers(l0, l1, s.wx, s.wy, tx, ty, sx, sy, conf)
    requires Patch.PatchedPixels(s.f, fr0, fr1, s.w, s.h, l0.mark, s.wx, s.wy, tx, ty, sx, sy)
    requires var b2 := Window(tx, ty, s.wx + 2, s.wy + 2, s.w, s.h);
      l2 == Layers(Frontier.Relabelled(l1.mark, s.w, s.h, b2.x0, b2.x1, b2.y0, b2.y1), l1.confid, l1.gray, s.w, s.h)
    ensures LayersOk(l2) && l2.w == s.w && l2.h == s.h && ConfidBounded(l2)
    ensures Frontier.BoundaryRule(l2.mark, s.w, s.h) && GrayIsLuma(s.f, fr1, l2.gray, s.w, s.h)
    ensures forall y, x :: 0 <= y < s.h && 0 <= x < s.w && l2.mark[y][x] != SOURCE ==> s.InRect(x, y)
    ensures forall y, x :: 0 <= y < s.h && 0 <= x < s.w && src[y][x] != 0 ==> Search.DonorAt(l2.mark, s.w, s.h, s.wx, s.wy, x, y)
    ensures forall y, x :: 0 <= y < s.h && 0 <= x < s.w && l0.mark[y][x] == SOURCE ==> l2.mark[y][x] == SOURCE
    ensures CountIf(l2.mark, Frontier.IsNotSource) < CountIf(l0.mark, Frontier.IsNotSource)
    ensures forall y, x :: 0 <= y < s.h && 0 <= x < s.w && !Window(tx, ty, s.wx + 2, s.wy + 2, s.w, s.h).Contains(x, y) ==>
      l2.mark[y][x] == l0.mark[y][x]
  {
    Patch.StepMarks(l0, l1, l2.mark, s.wx, s.wy, tx, ty, sx, sy, conf);
    Patch.PatchKeepsLuma(s.f, fr0, fr1, l0, l1, s.wx, s.wy, tx, ty, sx, sy, conf);
    Patch.PatchKeepsConfidBounded(l0, l1, s.wx, s.wy, tx, ty, sx, sy, conf);
    MarksKept(s, l0, src, l2.mark);
  }

  /** Marks that only gain SOURCE cells keep every cell still to fill in
      the rectangle and every recorded donor centre a donor. */
  lemma MarksKept(s: Setting, l0: Layers, src: Plane<byte>, g2: Plane<byte>)
    requires LayersOk(l0) && l0.w == s.w && l0.h == s.h && IsGrid(g2, s.w, s.h) && IsGrid(src, s.w, s.h)
    requires forall y, x :: 0 <= y < s.h && 0 <= x < s.w && l0.mark[y][x] != SOURCE ==> s.InRect(x, y)
    requires forall y, x :: 0 <= y < s.h && 0 <= x < s.w && src[y][x] != 0 ==> Search.DonorAt(l0.mark, s.w, s.h, s.wx, s.wy, x, y)
    requires forall y, x :: 0 <= y < s.h && 0 <= x < s.w && l0.mark[y][x] == SOURCE ==> g2[y][x] == SOURCE
    ensures forall y, x :: 0 <= y < s.h && 0 <= x < s.w && g2[y][x] != SOURCE ==> s.InRect(x, y)
    ensures forall y, x :: 0 <= y < s.h && 0 <= x < s.w && src[y][x] != 0 ==> Search.DonorAt(g2, s.w, s.h, s.wx, s.wy, x, y)
  {
    forall y, x | 0 <= y < s.h && 0 <= x < s.w && src[y][x] != 0
      ensures Search.DonorAt(g2, s.w, s.h, s.wx, s.wy, x, y)
    {
      assert Search.DonorAt(l0.mark, s.w, s.h, s.wx, s.wy, x, y);
      forall y', x' | y - s.wy <= y' < y + s.wy && x - s.wx <= x' < x + s.wx
        ensures g2[y'][x'] == SOURCE
      {
        assert l0.mark[y'][x'] == SOURCE;
      }
    }
  }

  /** The refreshed priorities are never negative, and a refreshed maximum
      is at least every stored priority of a BOUNDARY cell: inside the
      refreshed window by its choice, outside it because the marks there
      did not change and the old maximum bounded them. */
  lemma PrioritiesKept(s: Setting, l0: Layers, p0: Plane<int>, m0: int, l2: Layers, pp: Plane<int>, p3: Plane<int>, r: int,
                       px: int, py: int, tx: int, ty: int)
    requires LayersOk(l0) && l0.w == s.w && l0.h == s.h && IsGrid(p0, s.w, s.h)
    requires LayersOk(l2) && l2.w == s.w && l2.h == s.h && ConfidBounded(l2) && s.wx >= 1 && s.wy >= 1
    requires forall y, x :: 0 <= y < s.h && 0 <= x < s.w ==> p0[y][x] >= 0
    requires forall y, x :: 0 <= y < s.h && 0 <= x < s.w && l0.mark[y][x] == BOUNDARY ==> p0[y][x] <= m0
    requires forall y, x :: 0 <= y < s.h && 0 <= x < s.w && !Window(tx, ty, s.wx + 2, s.wy + 2, s.w, s.h).Contains(x, y) ==>
      l2.mark[y][x] == l0.mark[y][x]
    requires pp == Priorities(l2, s.wx, s.wy)
    requires p3 == Refreshed(l2.mark, pp, Window(tx, ty, s.wx + 3, s.wy + 3, s.w, s.h), p0, s.w, s.h)
    requires var b3 := Window(tx, ty, s.wx + 3, s.wy + 3, s.w, s.h);
      r >= 0 ==> (r >= m0 && b3.Contains(px, py) && l2.mark[py][px] == BOUNDARY && pp[py][px] == r &&
        forall y, x :: b3.Contains(x, y) && l2.mark[y][x] == BOUNDARY ==> pp[y][x] <= r)
    ensures forall y, x :: 0 <= y < s.h && 0 <= x < s.w ==> p3[y][x] >= 0
    ensures r >= 0 ==> (InFrame(px, py, s.w, s.h) && l2.mark[py][px] == BOUNDARY && p3[py][px] == r &&
      forall y, x :: 0 <= y < s.h && 0 <= x < s.w && l2.mark[y][x] == BOUNDARY ==> p3[y][x] <= r)
  {
    var b3 := Window(tx, ty, s.wx + 3, s.wy + 3, s.w, s.h);
    forall y, x | 0 <= y < s.h && 0 <= x < s.w
      ensures p3[y][x] >= 0
    {
      PriorityBounded(l2, s.wx, s.wy, x, y);
    }
    if r >= 0 {
      forall y, x | 0 <= y < s.h && 0 <= x < s.w && l2.mark[y][x] == BOUNDARY
        ensures p3[y][x] <= r
      {
        if !b3.Contains(x, y) {
          assert l2.mark[y][x] == l0.mark[y][x];
        }
      }
    }
  }
}
