# exinpaint: a Dafny model of the inpainting engine

ExInpaint is an AviSynth filter that fills masked regions of a video frame
using exemplar-based (Criminisi) inpainting. Its engine, the class
`inpainting`, keeps per-pixel grids for one frame size:

- the mark: SOURCE, TARGET or BOUNDARY, with ERODED and ERODEDNEXT as scratch values;
- the confidence;
- the priority;
- the gray image;
- whether a pixel may centre a donor patch.

A run of `process3planes` goes through these steps:

1. Classify the mask into SOURCE and TARGET.
2. Derive the gray image.
3. Optionally dilate the mask by one ring.
4. Estimate the donor search radius by repeated erosion.
5. Draw the fill front (the BOUNDARY cells) and record which pixels can centre a donor.
6. Give every BOUNDARY cell a priority.
7. Loop:
   - pick the highest-priority BOUNDARY cell;
   - search the box around it for the donor window with the least masked sum of absolute differences (SAD);
   - copy the donor window over the cells not yet filled;
   - repair the boundary near the patch;
   - refresh the priorities near the patch.

The filter's constructor chooses the engine's pixel layout from the video clip and the mask clip. YUY2 video is repacked into a packed 4:4:4 layout, YUV24, before the engine sees it, and packed back afterwards.

The model has three layers.

- **Specification layer.** Modules `Grid`, `Defs`, `Pixels`, `Masking`, `Frontier`, `Priority`, `Search` and `Patch` state every step as pure functions over grids. A grid is a `seq<seq<_>>` indexed `[y][x]`. Lemmas about those functions carry the properties the engine relies on:
  - the erosion terminates;
  - the front rule holds;
  - priorities are bounded;
  - the donor SAD is bounded and is zero for a window compared with itself;
  - a fill step only adds SOURCE cells, and at least one.
- **Engine.** `Engine.Inpainting` is a class whose grids are `array2` fields. The caller's planes (`main`, `u`, `v`) are `array2<byte>` parameters whose second dimension is the pitch. Each loop of the source is a method with its invariants, proved against the functions above. The fill loop keeps an invariant, `Engine.LoopState`, which says:
  - the rectangle still holds every cell left to fill;
  - the boundary rule holds;
  - confidences and stored priorities are in range;
  - recorded donor centres are still donors;
  - the gray grid is the luma of the picture;
  - a stored maximum is a true maximum.
- **Host.** Module `Host` holds the format choice of the constructor and the two YUY2/YUV24 repackers, each proved against a byte-level function, together with their round trip.

Three behaviours follow the code where a plain description of the engine would say otherwise:

- The donor search reports "not found" when no SAD falls below the initial minimum 99999999, not merely when the box holds no eligible centre. `Search.SmallWindowsAlwaysCompete` shows the two agree for windows of at most 130000 cells.
- The bad-mask `return -count` branch of `process3planes` is kept, and is proved never taken: with a cell left to fill, a BOUNDARY cell with a non-negative priority always exists.
- `UpdatePri` compares against the running field `max_pri`. Its ties therefore go to the last cell in row-major order. `HighestPriority` keeps the first.

## Model

| member | source | states |
|---|---|---|
| Engine.Inpainting.constructor | inpainting.cpp:60-74 | the grids are fresh, of the frame size, and the frame size and layout are those given |
| Engine.Inpainting.Process3Planes | inpainting.cpp:104-180 | the set-up leaves the mask marks (classified, dilated) and the radius (the given one, or the erosion estimate `max(rounds + 5, 4 * min(winx, winy))`); the step count is in `[0, maxsteps]`, never negative and never above the number of cells to fill, so it is 0 when there is none; SOURCE cells stay SOURCE; each step that finds a donor fills at least one cell (count + cells left <= cells at start, plus one for a stall); a stall leaves the stored cell of highest priority unfilled with no recorded donor in its search box below the initial SAD minimum; when the loop ends before `maxsteps` without a stall, every cell is SOURCE |
| Engine.Inpainting.Prepare | inpainting.cpp:113-156 | window halves are `xsize / 2`, `ysize / 2`; marks are the drawn front of the set-up marks; the radius as above; no maximum is stored; the loop invariant holds |
| Engine.Inpainting.Configure | inpainting.cpp:113-133 | the parameters are stored, the rectangle starts empty (`top = height`, `bottom = 0`, `left = width`, `right = 0`) and no maximum is stored |
| Engine.Inpainting.Build | inpainting.cpp:135-156 | from an empty rectangle the set-up reaches the loop invariant, with the front drawn from the mask marks and the radius chosen as the source does |
| Engine.Inpainting.MarkMask | inpainting.cpp:135-139 | the gray grid is the luma of the picture, the marks are the classified and optionally dilated mask, and every confidence is in `[0, 2048]` |
| Engine.Inpainting.AutoRadius | inpainting.cpp:141-149 | a zero radius becomes `max(erosion rounds + 5, 4 * min(winx, winy))`, any other radius is kept, and the marks are left as they were |
| Engine.Inpainting.DrawFront | inpainting.cpp:150-156 | the front is drawn, the rectangle lies in the frame and holds every unfilled cell, donor centres are exactly the cells whose whole window is in frame and SOURCE, and every BOUNDARY cell of the rectangle gets its priority while all other priorities are 0 |
| Engine.Zero | inpainting.cpp:152 | every cell of the grid is 0, as `memset` leaves it |
| Engine.Inpainting.InitPriorities | inpainting.cpp:153-156 | each BOUNDARY cell of the rectangle holds its priority, every other cell keeps its old value |
| Engine.Inpainting.InitRow | inpainting.cpp:154-156 | one row of the first priority pass extends the pass by that row |
| Engine.Inpainting.InitCell | inpainting.cpp:155-156 | one cell of the first priority pass extends the pass by that cell and changes no grid the priority reads |
| Engine.Inpainting.StoreInit | inpainting.cpp:156 | the stored priority of a BOUNDARY cell extends the first pass by that cell |
| Engine.Inpainting.StartSearch | inpainting.cpp:151-156 | donor centres are exactly the cells whose whole window is in frame and SOURCE; every BOUNDARY cell of the rectangle gets its priority and every other cell priority 0 |
| Engine.Inpainting.CoveredRect | inpainting.cpp:663-680 | after the first boundary pass the rectangle lies in the frame and holds every TARGET cell |
| Engine.Inpainting.StartRunning | inpainting.cpp:150-158 | the state the set-up leaves satisfies the loop invariant |
| Engine.Inpainting.FillFrom | inpainting.cpp:157-179 | the fill loop from the set-up state: step count in `[0, maxsteps]` and at most the number of cells to fill, SOURCE cells kept, progress of one cell per step, a stall only at a stored cell left unfilled for which no donor qualifies, and a complete fill when it ends early without a stall; the parameters are unchanged |
| Engine.Inpainting.FillLoop | inpainting.cpp:157-179 | the `while` loop keeps the loop invariant; the count is at most the cells to fill (0 and no stall when there is none); `stalled` holds exactly at the `!found` return, where the stored cell is unfilled and no recorded donor of its search box has a SAD below the initial minimum; otherwise the loop ran `maxsteps` steps or filled every cell |
| Engine.Inpainting.Iteration | inpainting.cpp:159-177 | one pass of the loop body with a cell left to fill always finds a maximum (never the bad-mask return); a found donor strictly lowers the number of cells left; no donor leaves the marks as they were, with the stored cell unfilled and no qualifying donor for it |
| Engine.Inpainting.ChooseCell | inpainting.cpp:162-163 | with a cell left to fill, the maximum stored is at least 0 and the loop invariant holds for it |
| Engine.Inpainting.FillAndScan | inpainting.cpp:169-177 | a step with a stored maximum: it keeps the invariant, fills at least one cell when a donor is found, changes no mark when none is (the stored cell then has no qualifying donor), and tells whether a cell is left to fill |
| Engine.Inpainting.FillStep | inpainting.cpp:169-176 | search, copy, boundary repair and refresh keep the invariant and SOURCE cells; a found donor strictly lowers the number of unfilled cells; no donor changes nothing and means no recorded donor centre in the search box of the stored cell has a SAD below the initial minimum |
| Engine.Inpainting.Advance | inpainting.cpp:173-176 | the copy and both repairs from a loop state reach a loop state with SOURCE cells kept and fewer cells to fill |
| Engine.Inpainting.Refill | inpainting.cpp:173-175 | confidence, copy and boundary repair: the grids and the picture are exactly the patched ones, and the marks are the repaired ones |
| Engine.Inpainting.Refresh | inpainting.cpp:176 | the stored priorities become the refreshed ones; a non-negative result is at least the old maximum and is the highest priority of a BOUNDARY cell in the window; no grid and no donor centre changes |
| Engine.Inpainting.Reprioritize | inpainting.cpp:176 | after a patch and a boundary repair, refreshing the priorities restores the loop invariant, with SOURCE cells kept and fewer cells to fill |
| Engine.Inpainting.TargetLeft | inpainting.cpp:159 | `TargetExist` on the invariant's values: true gives an unfilled cell, false means every cell of the frame is SOURCE |
| Engine.Inpainting.Choose | inpainting.cpp:162-168 | with a cell left to fill, the maximum found is at least 0, so `return -count` is never taken |
| Engine.Inpainting.Highest | inpainting.cpp:163 | `HighestPriority` on the invariant's values: a maximum of the stored priorities of the BOUNDARY cells of the rectangle, held by a BOUNDARY cell |
| Engine.BoundaryLeft | inpainting.cpp:167-168 | in a loop state with a cell left to fill, the rectangle holds a BOUNDARY cell with priority >= 0 |
| Engine.ChosenKeeps | inpainting.cpp:162-163 | storing the global maximum keeps the loop state |
| Engine.StepKeeps | inpainting.cpp:169-177 | copy, boundary repair and priority refresh keep the loop state, keep SOURCE cells, and strictly lower the number of unfilled cells |
| Engine.StepGrids | inpainting.cpp:173-175 | after the copy and the repair, the grids satisfy the front rule, confidences stay in range, the gray is the luma of the new picture, donors stay donors, and marks outside the repair window are unchanged |
| Engine.MarksKept | inpainting.cpp:174-175 | marks that only gain SOURCE cells keep every unfilled cell in the rectangle and every donor centre a donor |
| Engine.PrioritiesKept | inpainting.cpp:1639-1651 | after the refresh every stored priority is >= 0, and a non-negative result is the global maximum over all BOUNDARY cells, not just those in the window; this is why the global scan may be skipped |
| Engine.Inpainting.Convert2Gray | inpainting.cpp:184-240 | the gray grid holds the luma of every pixel: `(3735 b + 19268 g + 9765 r) / 32768` for RGB, the Y byte for YUV24, the luma sample for YV12 (see Findings) |
| Engine.Inpainting.GetMask | inpainting.cpp:498-661 | each mark is TARGET exactly when the pixel is masked and SOURCE otherwise; TARGET has confidence 0 and SOURCE 2048 |
| Engine.Inpainting.MaskRow | inpainting.cpp:507-524 | one row of the classification extends it by that row |
| Masking.Classified | inpainting.cpp:498-661 | mask key equal to `maskcolor` (alpha above 127 for RGBA) gives TARGET, anything else SOURCE |
| Pixels.RgbKeyIgnoresAlpha | inpainting.cpp:512-513 | the RGB32 key is the B, G, R bytes alone; alpha never matters |
| Engine.Inpainting.Dilate | inpainting.cpp:388-457 | the marks become the one-ring dilation: a SOURCE cell becomes TARGET exactly when an enabled-axis neighbour was TARGET; no ERODED mark is left (corrected restore, see Findings) |
| Engine.Inpainting.TagRowHorizontal | inpainting.cpp:394-414 | one row of the horizontal pass tags SOURCE cells beside a TARGET cell of the same row |
| Engine.Inpainting.TagRowVertical | inpainting.cpp:416-441 | one row of the vertical pass tags SOURCE cells above or below a TARGET cell of the original marks |
| Engine.Inpainting.RestoreRow | inpainting.cpp:443-452 | one row of the restore turns that row's tags into TARGET |
| Masking.Dilated | inpainting.cpp:394-455 | every cell is the dilation of the original grid, read from the grid before the passes (no cascade) |
| Masking.DilatedGrowsOneRing | inpainting.cpp:394-441 | dilation keeps SOURCE/TARGET only, keeps every TARGET, and adds only cells with an enabled-axis TARGET neighbour |
| Masking.DilateIsolatedPixel | inpainting.cpp:394-441 | with both flags an isolated TARGET pixel gains exactly its in-frame 4-neighbours and no diagonal |
| Masking.SetupMarks | inpainting.cpp:135-139 | classified mask, dilated when the flags are set: only SOURCE and TARGET cells |
| Engine.Inpainting.EstimateRadius | inpainting.cpp:243-386 | the result is the number of erosion rounds until no TARGET is left; the marks are restored exactly |
| Engine.Inpainting.ErodeRound | inpainting.cpp:253-371 | one `do` round acts as if all cells were decided at once; its flag is whether a TARGET cell existed before the round |
| Engine.Inpainting.ErodeRow | inpainting.cpp:258-330 | one row of a round applies the erosion rule to that row and reports whether the row held a TARGET cell |
| Engine.Inpainting.ErodeAt | inpainting.cpp:268-279 | one cell of a round: a TARGET cell with a SOURCE or eroded in-frame neighbour becomes ERODEDNEXT; the flag is whether the cell was TARGET |
| Engine.Inpainting.PromoteRow | inpainting.cpp:327-329 | the ERODEDNEXT cells of the row above become ERODED |
| Engine.Inpainting.UnerodeRow | inpainting.cpp:374-383 | one row of the restore turns ERODED back into TARGET, matching the marks before the estimate |
| Masking.Eroded | inpainting.cpp:253-371 | a TARGET cell with a SOURCE or eroded 4-neighbour becomes ERODED, every other cell is kept |
| Masking.NothingToErode | inpainting.cpp:253-371 | with no TARGET cell a round changes nothing |
| Masking.FrontierExists | inpainting.cpp:261-363 | while TARGET and SOURCE-or-eroded cells coexist, some TARGET cell erodes |
| Masking.ErodeShrinks | inpainting.cpp:253-371 | a round that has a TARGET cell strictly lowers the TARGET count and keeps the grid erodible, so the `do` loop ends |
| Masking.ErosionRounds | inpainting.cpp:250-371 | the iteration count is at least 1 |
| Masking.ErosionRoundsBound | inpainting.cpp:250-385 | the count is 1 exactly when there is no TARGET cell, and never exceeds the TARGET count plus one |
| Engine.Inpainting.DrawBoundary | inpainting.cpp:663-680 | marks become the drawn front, and the rectangle is the tight box of the TARGET cells (each bound is its initial value or a row/column holding a TARGET cell) |
| Engine.Inpainting.DrawBoundaryCell | inpainting.cpp:669-677 | one cell of the pass extends the drawn front and the tight box by that cell |
| Engine.Inpainting.GrowRect | inpainting.cpp:671-674 | the rectangle grows to hold the TARGET cell and stays tight |
| Frontier.Bordered | inpainting.cpp:663-680 | a TARGET cell becomes BOUNDARY exactly when it lies on a frame edge or has a SOURCE 4-neighbour |
| Frontier.BorderedRule | inpainting.cpp:676-677 | the drawn front satisfies the boundary rule and has the same SOURCE cells |
| Frontier.BoundaryExists | inpainting.cpp:167-168 | under the boundary rule an unfilled cell implies a BOUNDARY cell |
| Frontier.SameTouch | inpainting.cpp:676-677 | grids with the same SOURCE cells agree on which cells touch SOURCE |
| Frontier.SameSourcesCount | inpainting.cpp:676-677 | drawing the front never changes the number of cells left to fill |
| Engine.Inpainting.UpdateBoundary | inpainting.cpp:1607-1632 | the marks become the repaired ones: inside the window grown by 2, non-SOURCE cells are relabelled BOUNDARY or TARGET by the rule; nothing else changes |
| Engine.Inpainting.ClearRow | inpainting.cpp:1611-1616 | one row of the first pass turns non-SOURCE cells of the window into TARGET |
| Engine.Inpainting.RelabelRow | inpainting.cpp:1618-1631 | one row of the second pass marks BOUNDARY the TARGET cells on the edge or beside SOURCE |
| Frontier.Relabelled | inpainting.cpp:1607-1632 | SOURCE cells and cells outside the window keep their mark; inside, an unfilled cell is BOUNDARY exactly when it touches SOURCE or the edge |
| Frontier.RelabelRestoresRule | inpainting.cpp:1607-1632 | a repair window one cell wider than the filled area restores the boundary rule on the whole frame |
| Engine.Inpainting.DrawSource | inpainting.cpp:831-861 | a cell is marked 1 exactly when its whole window lies in the frame and is SOURCE, else 0 |
| Engine.Inpainting.WindowIsSource | inpainting.cpp:840-857 | the early-exit scan is true exactly when every cell of the window is SOURCE |
| Engine.Inpainting.GetGradient | inpainting.cpp:751-785 | the result is the scaled two-point gradient of the gray grid, with the edge cases of column 0 and row 0 |
| Priority.GradientOfRamp | inpainting.cpp:751-785 | on a linear ramp `c + a x + b y` the gradient is `(2a, 2b)` at every cell, edges included |
| Priority.GradientBounded | inpainting.cpp:751-785 | each gradient component is within `[-510, 510]` |
| Engine.Inpainting.GetNorm | inpainting.cpp:788-828 | the normal of the front at the cell, one of the four values `Priority.NormAt` allows |
| Priority.NormAt | inpainting.cpp:788-828 | the normal is one of `(181, 182)`, `(0, 256)`, `(256, 0)`, `(181, -181)` |
| Priority.ScaledNorm | inpainting.cpp:818-826 | the swapped difference scaled to 256 and truncated: `(0, 256)`, `(256, 0)` or `(181, -181)` |
| Priority.NormNeighbours | inpainting.cpp:796-816 | at the top or left edge the normal is the fallback `(181, 182)`; when the upper-left and upper neighbours are both BOUNDARY (the first two found) it is `(0, 256)`, whatever the left neighbour is |
| Engine.Inpainting.ComputeConfidence | inpainting.cpp:694-703 | the confidences of the clipped window, summed and truncated by the full window area; in `[0, 2048]` when every confidence is |
| Priority.ConfidenceBounded | inpainting.cpp:694-702 | with confidences in `[0, 2048]`, the confidence term is in `[0, 2048]` |
| Priority.RowSumBounded | inpainting.cpp:698-699 | the confidences of one clipped row sum to at most 2048 per cell |
| Priority.BoxSumBounded | inpainting.cpp:697-699 | the confidences of the clipped window sum to at most 2048 times its area |
| Priority.WindowSumBounded | inpainting.cpp:697-700 | the clipped window's sum is at most 2048 times the full window area, the divisor |
| Priority.EmptyRows | inpainting.cpp:697-699 | a window clipped to no column sums to 0 |
| Grid.Quot | inpainting.cpp:700 | C integer division: for a non-negative dividend the quotient is the floor |
| Engine.Inpainting.ComputeData | inpainting.cpp:705-746 | the data term, which is at most 261120 |
| Engine.Inpainting.ScanWindow | inpainting.cpp:714-737 | the gradient chosen is the window's representative gradient |
| Engine.Inpainting.ConsiderCell | inpainting.cpp:719-734 | a site (SOURCE with SOURCE in-frame neighbours) whose squared magnitude exceeds the best so far replaces it |
| Engine.Inpainting.ScanCells | inpainting.cpp:716-735 | one row of the window scan, left to right, extends the best site so far by that row |
| Priority.WindowGradientIsFirstMax | inpainting.cpp:714-737 | the representative gradient has the largest squared magnitude among the window's sites and is the first to reach it in row-major order, or zero when no site beats zero |
| Priority.ConsiderBest | inpainting.cpp:727-734 | one more cell keeps the first strongest site so far |
| Priority.EmptyScan | inpainting.cpp:714-737 | a window clipped to no column yields no gradient |
| Priority.ScanRowBest | inpainting.cpp:716-736 | one scanned row keeps the first strongest site so far |
| Priority.ScanRowsBest | inpainting.cpp:714-737 | the scanned rows give the first strongest site so far |
| Priority.DataBounded | inpainting.cpp:738-745 | the data term is in `[0, 261120]` |
| Engine.Inpainting.CellPriority | inpainting.cpp:685-691 | the priority is confidence times data, in `[0, 2048 * 261120]` when confidences are in range |
| Priority.PriorityBounded | inpainting.cpp:685-691 | a priority is never negative and fits a 32-bit `int` |
| Priority.Priorities | inpainting.cpp:685-691 | the priority of every cell of the frame |
| Engine.Inpainting.HighestPriority | inpainting.cpp:462-495 | -1 exactly when no BOUNDARY cell of the rectangle has priority above -1, and then the cell is the rectangle's corner; otherwise the maximum, at the first BOUNDARY cell in row-major order that holds it |
| Engine.Inpainting.TargetExist | inpainting.cpp:1597-1604 | true exactly when some cell of the rectangle is not SOURCE |
| Engine.Inpainting.UpdatePri | inpainting.cpp:1635-1656 | the stored priorities of the BOUNDARY cells in the window grown by 3 become their priorities; when one reaches the old maximum, the result and the new maximum are the highest of them, held by the last cell that reaches it; otherwise -1 and the maximum unchanged |
| Engine.Inpainting.RefreshWindow | inpainting.cpp:1639-1652 | the two loops of the refresh give the refreshed priorities and the maximum outcome above |
| Engine.Inpainting.UpdatePriRow | inpainting.cpp:1640-1652 | one row of the refresh extends the scan by that row |
| Engine.Inpainting.UpdatePriCell | inpainting.cpp:1641-1652 | one cell of the refresh extends the scan by that cell and changes no grid the priority reads |
| Engine.Inpainting.RecordPri | inpainting.cpp:1643-1651 | a priority that reaches the running maximum becomes it, with its cell |
| Engine.Inpainting.PriScanDone | inpainting.cpp:1639-1654 | the finished scan is the refresh outcome |
| Priority.Refreshed | inpainting.cpp:1639-1644 | BOUNDARY cells in the window take their priority, every other cell keeps its stored one |
| Engine.Inpainting.PatchTexture | inpainting.cpp:865-1476 | found exactly when some recorded donor centre in the search box has SAD below 99999999; the donor chosen has the least SAD and is the first in row-major order to reach it; its window is in frame and SOURCE |
| Engine.Inpainting.WindowSad | inpainting.cpp:905-1003 | the accumulated sum is the masked SAD of the two windows |
| Engine.Inpainting.AddRowSad | inpainting.cpp:907-1003 | one row offset adds that row's masked terms |
| Engine.Inpainting.AddBorderRowSad | inpainting.cpp:916-936 | the border loop skips out-of-frame and non-SOURCE target cells and adds that row's terms |
| Engine.Inpainting.AddMiddleRowSad | inpainting.cpp:937-954 | the branch-free middle loop (`& smark`) adds the same terms as the border loop |
| Engine.Inpainting.SourceTerm | inpainting.cpp:923-934 | the term of an in-frame target cell: its channel distance to the donor cell when it is SOURCE, else 0 |
| Engine.Inpainting.ConsiderDonor | inpainting.cpp:1004-1009 | a strictly smaller sum replaces the best donor |
| Engine.Inpainting.Diff | inpainting.cpp:928-933 | the sum of absolute differences of the three compared channels |
| Pixels.CellDiff | inpainting.cpp:928-933 | at most 765, and 0 for a pixel compared with itself |
| Search.Term | inpainting.cpp:923-934 | one compared cell contributes at most 765 |
| Search.SadBounded | inpainting.cpp:905-1003 | a SAD is in `[0, 765 * window area]` |
| Search.SadSelf | inpainting.cpp:905-1003 | a donor window compared with itself has SAD 0 |
| Search.RowSadBounded | inpainting.cpp:916-954 | a partial row of the window sums to at most 765 per column |
| Search.RowsSadBounded | inpainting.cpp:905-1003 | the rows summed so far total at most 765 per cell |
| Search.RowSadSelf | inpainting.cpp:916-954 | a row compared with itself sums to 0 |
| Search.RowsSadSelf | inpainting.cpp:905-1003 | rows compared with themselves sum to 0 |
| Search.SearchBox | inpainting.cpp:873-886 | the box is the clipped `[x - r, x + r) x [y - r, y + r)`, or the whole frame for `r <= 0` |
| Search.SmallWindowsAlwaysCompete | inpainting.cpp:1472-1475 | with windows of at most 130000 cells every SAD is below the initial minimum, so any eligible centre is found |
| Engine.Inpainting.Update | inpainting.cpp:1479-1594 | every in-frame unfilled cell of the target window becomes SOURCE with confidence `confid` and the gray and pixel bytes of its donor cell; every other cell and byte, row padding included, is unchanged; for YV12 each chroma plane is `Patch.ChromaFill`: the unfilled cells, in row-major order, each copy onto their own sample the donor's sample as the plane holds it at that moment |
| Engine.Inpainting.FillWindow | inpainting.cpp:1490-1508 | the copy loops reach the filled state over the whole window |
| Engine.Inpainting.FillRow | inpainting.cpp:1495-1507 | one row of the copy extends the filled state by that row |
| Engine.Inpainting.FillRowDone | inpainting.cpp:1495-1507 | the end of a row is the start of the next |
| Engine.Inpainting.FillCell | inpainting.cpp:1500-1506 | one cell of the copy extends the filled state by that cell |
| Engine.Inpainting.SkipCell | inpainting.cpp:1500 | a cell already SOURCE is left alone |
| Engine.Inpainting.SetCell | inpainting.cpp:1502-1504 | a filled cell becomes SOURCE with its donor's gray and the step's confidence `confid` |
| Engine.Inpainting.CopyBytes | inpainting.cpp:1505 | the pixel bytes of a filled cell come from its donor, which still holds its original bytes |
| Engine.Inpainting.StorePixel | inpainting.cpp:1529-1531 | each byte of the pixel is its donor's, every other byte of the plane is unchanged |
| Pixels.ByteAtSeparate | inpainting.cpp:1529-1531 | the bytes of pixel `x` lie inside the row and overlap the bytes of no other pixel |
| Engine.Inpainting.PixelCopied | inpainting.cpp:1529-1531 | a copied pixel extends the filled picture by that cell |
| Engine.Inpainting.CellBytesFilled | inpainting.cpp:1529-1531 | the copied bytes extend the filled pixels by that cell |
| Engine.Inpainting.PaddingKept | inpainting.cpp:1529-1531 | bytes past the row width and rows past the height are never written |
| Engine.Inpainting.CopyChroma | inpainting.cpp:1587-1588 | the U and V sample of a filled YV12 cell take its donor's samples as the planes hold them, which moves both planes' scan past that cell |
| Engine.Inpainting.FillChroma | inpainting.cpp:1587-1588 | one chroma plane: the filled cell's sample takes its donor's sample as the plane holds it, so the plane is the scan `Patch.ChromaFill` moved one cell on |
| Engine.Inpainting.FillRows | inpainting.cpp:1569-1591 | the row loop reaches the filled state, chroma included, over the whole window |
| Engine.Inpainting.ChromaRowDone | inpainting.cpp:1575-1591 | the end of a row of the chroma scan is the start of the next |
| Patch.ChromaFillKeeps | inpainting.cpp:1580-1589 | a chroma sample that no cell written between two scan positions shares keeps its value between them |
| Patch.ChromaFillUntouched | inpainting.cpp:1569-1591 | a chroma sample that no filled cell of the window shares keeps its original value |
| Patch.ChromaFillLastWriter | inpainting.cpp:1580-1589 | a sample shared by filled cells holds the donor sample read by the last of them, as the plane stood when the scan reached that cell |
| Patch.PatchChromaUntouched | inpainting.cpp:1567-1592 | a YV12 fill changes no chroma sample that no filled cell shares |
| Engine.Inpainting.LayersPatched | inpainting.cpp:1490-1508 | the grids after the loops are the patched grids |
| Engine.Inpainting.PixelsPatched | inpainting.cpp:1490-1592 | the picture after the loops is the patched picture |
| Engine.Inpainting.MainPatched | inpainting.cpp:1490-1534 | the main plane after the loops: filled pixels hold their donors' bytes, all others their own |
| Engine.Inpainting.ChromaPatched | inpainting.cpp:1567-1592 | for YV12 each chroma plane after the loops is the whole row-major scan `Patch.ChromaFill` of the window; other layouts leave them unchanged |
| Patch.LayersAt | inpainting.cpp:1500-1504 | a filled cell is SOURCE with confidence `conf` and its donor's gray; any other cell is unchanged |
| Patch.PixelsAt | inpainting.cpp:1505 | each byte of a filled pixel is its donor's, any other pixel is unchanged |
| Patch.PatchKeepsConfidBounded | inpainting.cpp:1504 | a patch with confidence in `[0, 2048]` keeps every confidence in range |
| Patch.PatchKeepsLuma | inpainting.cpp:1500-1586 | the copied gray is the luma of the copied pixel, so the gray grid stays the luma of the picture |
| Patch.PatchProgress | inpainting.cpp:1490-1508 | the whole clipped window becomes SOURCE, nothing outside changes, and an unfilled centre is filled |
| Patch.StepMarks | inpainting.cpp:173-175 | the copy and the repair keep the boundary rule and SOURCE cells, strictly lower the unfilled count, and touch nothing outside the repair window |
| Pixels.RgbLuma | inpainting.cpp:194-197 | a gray pixel (`b = g = r`) has that value as its luma |
| Pixels.AliasedGray | inpainting.cpp:216-217 | the YV12 gray as written: the luma plane read with the width as the row stride |
| Pixels.LinearInPlane | inpainting.cpp:216-217 | the aliased index `y * width + x` always falls inside the luma plane, at a row below the height |
| Pixels.AliasedGrayPacked | inpainting.cpp:216-217 | when the pitch equals the width the aliased gray is the luma plane |
| Pixels.AliasedGrayMisreadsRows | inpainting.cpp:216-217 | with pitch 4 and width 2, gray cell (0, 1) reads 7 while its luma is 9 |
| Masking.RestoreAsWritten | inpainting.cpp:443-455 | the restore loop as written over the flat mark buffer: each pass restores row 0 only and then adds the width to flat byte `j` (a byte past row 0 when `j` reaches the width, which happens when the height exceeds the width); a byte at or past both the width and the number of passes is never touched, so it keeps its ERODED mark |
| Masking.RestoreIntended | inpainting.cpp:443-455 | the intended restore leaves no ERODED mark, and a cell is TARGET exactly when it was TARGET or ERODED |
| Masking.DilateRestoreBug | inpainting.cpp:453 | on a 2 x 2 frame with the lower-left cell dilated, the loop as written leaves that ERODED mark and turns row 0 into BOUNDARY |
| Host.ChooseFormat | exinpaint.cpp:61-92 | accepted exactly for RGB32 without a mask clip, or a supported type with a mask clip of the same size and type; RGBA exactly without a mask clip, YUV24 exactly for YUY2 video, which alone gets the buffer pitch; a mask clip with another video type is refused as unsupported |
| Host.BufferHoldsRow | exinpaint.cpp:79 | the buffer pitch holds a repacked row, is a multiple of 12, and is less than `3 * width + 12` |
| Host.Yuy2ToYuv24 | exinpaint.cpp:172-193 | the buffer becomes the repacked picture; bytes past each converted row and rows past the height are unchanged |
| Host.ExpandRow | exinpaint.cpp:174-190 | one row is repacked, and no other row changes |
| Host.StoreYuv24 | exinpaint.cpp:183-188 | the six bytes of a pair are `y1 u v y2 u v` |
| Host.PairExpanded | exinpaint.cpp:179-188 | pair `k` at byte `4k` maps to `y1 u v y2 u v` at byte `6k` |
| Host.ToYuv24 | exinpaint.cpp:172-193 | the repacked picture keeps its shape and leaves bytes outside the converted area alone |
| Host.Yuv24ToYuy2 | exinpaint.cpp:250-269 | the frame becomes the packed buffer; bytes past each converted row and rows past the height are unchanged |
| Host.PackRow | exinpaint.cpp:252-266 | one row is packed, and no other row changes |
| Host.StoreYuy2 | exinpaint.cpp:261-264 | the four bytes of a pair are `y1 u y2 v` |
| Host.PairPacked | exinpaint.cpp:257-264 | pair `k` maps `y1 u v y2` at byte `6k` to `y1 u y2 v` at byte `4k` |
| Host.ToYuy2 | exinpaint.cpp:250-269 | the packed frame keeps its shape and leaves bytes outside the converted area alone |
| Host.RoundTrip | exinpaint.cpp:172-269 | packing a repacked YUY2 picture gives back every converted byte |
| Host.ChromaShared | exinpaint.cpp:172-269 | repacking a packed YUV24 buffer gives it back, except that a pair's second pixel takes the first pixel's U and V |
| Host.PairsVisited | exinpaint.cpp:174 | the `w += 2` loop visits pair `k` exactly when `k` is below the pair count |

## Left out

- The MMX/ISSE assembly blocks of the engine and of the converters. They are disabled at build time and compute the same sums as the scalar code that is modelled.
- The YUY2 branches of the engine (`Convert2Gray`, `GetMask`, `PatchTexture`, `update`). The host never hands YUY2 to the engine: it repacks it as YUV24, so `EngineFormat` excludes YUY2.
- The floating-point `sqrt` in `GetNorm`. The three normals it can produce are tabulated with their truncated integer values.
- The `process` wrapper, the AviSynth plugin glue (`GetFrame`, `Create_ExInpaint`, plugin registration) and `ThrowError`. Errors are values of `Host.Result`.
- Frame I/O, `MakeWritable` and debug output.
- The destructor and `new`/`delete`. Grids are arrays created by the constructor.
- The caller's planes are `array2<byte>` parameters rather than raw pointers stored in fields. Pointer arithmetic becomes row and column indices.
- Engine.Inpainting.Process3Planes: requires frame sides and patch sizes of at least 2. The edge code indexes one cell beyond each side unguarded, and an odd patch size of 1 divides by zero.
- Engine.Inpainting.Process3Planes: when the radius is estimated, requires a mask whose erosion ends (`Erodible`: some SOURCE cell, or no TARGET cell). Otherwise the source loops forever.
- Engine.Inpainting.EstimateRadius: the same `Erodible` requirement, for the same reason.
- Engine.Inpainting.Update: requires the donor window to be in frame and SOURCE. The loop passes only such donors, as recorded by `draw_source`.
- Host.Yuy2ToYuv24: requires the frame and the buffer to be distinct arrays. The filter always passes a separate buffer.
- Host.Yuv24ToYuy2: requires the frame and the buffer to be distinct arrays, for the same reason.
- Engine.Inpainting.ConsiderCell: the gradient record `Priority.Best` carries the position of the best site as ghost fields. This is how the row-major "first maximum" is stated.
- Engine.Inpainting.Dilate: models the restore loop as intended (see Findings). The loop as written is `Masking.RestoreAsWritten`.
- Engine.Inpainting.Convert2Gray: for YV12 the model keeps a gray grid equal to the luma plane instead of aliasing it (see Findings). The aliasing is `Pixels.AliasedGray`.
- 32-bit overflow in general. `Priority.PriorityBounded` shows priorities stay below 2^31 for every input. The two sums below can wrap in the source for very large patches; the model's integers are unbounded and do not wrap.
- Engine.Inpainting.ComputeConfidence: does not model the wrap of the source's 32-bit `int` sum. Each confidence is at most 2048 (2^11), so the sum can pass 2^31 once the clipped window holds more than 2^20 cells (for example `xsize` >= 1920 and `ysize` >= 1080 on a 1920 x 1080 frame); only below that bound does `Priority.ConfidenceBounded` describe the source.
- Engine.Inpainting.PatchTexture: does not model the wrap of the source's 32-bit `long` SAD sum. `Search.SadBounded` bounds a SAD by 765 times the window area, which stays below 2^31 only up to about 2.8 million cells per window; nothing in `Process3Planes` bounds `xsize` or `ysize`.

## Findings

| source | as written | input that shows it | evidently intended | confidence | as-written member | corrected member |
|---|---|---|---|---|---|---|
| inpainting.cpp:453 | `pmark[j] += m_width` adds the width to flat mark byte `j` instead of advancing the row pointer. Only row 0 is restored, and the first `height` flat bytes are shifted by the width; bytes past row 0 are among them when the height exceeds the width (2 wide, 4 high: flat byte 2, if ERODED, ends as 6). | 2 x 2 marks `[SOURCE, SOURCE, ERODED, SOURCE]` (lower-left cell dilated) end as `[BOUNDARY, BOUNDARY, ERODED, SOURCE]` | `pmark += m_width`: every ERODED mark becomes TARGET and no other mark changes | not executed; high | Masking.RestoreAsWritten, Masking.DilateRestoreBug | Engine.Inpainting.Dilate, Masking.RestoreIntended |
| inpainting.cpp:216-217 | For YV12 the gray grid aliases the luma plane. Gray cells are then read at `y * m_width + x` (inpainting.cpp:761-781), which ignores the plane's pitch. | YV12, width 2, height 2, luma pitch 4, rows `[0, 0, 7, 0]` and `[9, 0, 0, 0]`: gray cell (0, 1) reads 7, the luma there is 9 | gray cell `(x, y)` is the luma sample at row `y`, column `x` (as for every other layout) | not executed; medium, since frames whose pitch equals the width are unaffected | Pixels.AliasedGray, Pixels.AliasedGrayMisreadsRows | Engine.Inpainting.Convert2Gray |
