/**
 * The "have we drawn this tile?" bookkeeping shared by MaplandsDisplay and
 * TestFrameMap: a row-major buffer of one flag per tile column and row of
 * the view, moved along when the view is translated, and the canvas depth
 * buffer moved with it.
 */
module RenderGrid {
  import opened RowMajor

  /** The visible tile columns minCols..maxCols and rows minRows..maxRows. */
  datatype Grid = Grid(minCols: int, maxCols: int, minRows: int, maxRows: int)

  predicate WellFormed(g: Grid) {
    g.minCols <= g.maxCols && g.minRows <= g.maxRows
  }

  function Columns(g: Grid): int {
    g.maxCols - g.minCols + 1
  }

  function Rows(g: Grid): int {
    g.maxRows - g.minRows + 1
  }

  /** The length of the drawn-tiles buffer: (maxRows - minRows + 1) * (maxCols - minCols + 1). */
  function Size(g: Grid): (n: int)
    ensures WellFormed(g) ==> n >= Columns(g)
  {
    if WellFormed(g) then MulNonNegative(Rows(g) - 1, Columns(g)); Rows(g) * Columns(g) else Rows(g) * Columns(g)
  }

  predicate InGrid(g: Grid, x: int, y: int) {
    g.minCols <= x <= g.maxCols && g.minRows <= y <= g.maxRows
  }

  /** The buffer index of tile column `x`, row `y`: rows are stored one after another. */
  function CellIndex(g: Grid, x: int, y: int): (i: int)
    requires InGrid(g, x, y)
    ensures 0 <= i < Size(g)
  {
    IndexInBounds(y - g.minRows, x - g.minCols, Columns(g), Rows(g));
    (y - g.minRows) * Columns(g) + (x - g.minCols)
  }

  /** Distinct tiles have distinct buffer cells. */
  lemma CellIndexInjective(g: Grid, x1: int, y1: int, x2: int, y2: int)
    requires InGrid(g, x1, y1) && InGrid(g, x2, y2)
    requires CellIndex(g, x1, y1) == CellIndex(g, x2, y2)
    ensures x1 == x2 && y1 == y2
  {
    IndexUnique(y1 - g.minRows, x1 - g.minCols, y2 - g.minRows, x2 - g.minCols, Columns(g));
  }

  /** Every buffer cell belongs to a tile of the grid. */
  lemma CellIndexOnto(g: Grid, i: int) returns (x: int, y: int)
    requires WellFormed(g) && 0 <= i < Size(g)
    ensures InGrid(g, x, y) && CellIndex(g, x, y) == i
  {
    CellOfIndex(i, Columns(g), Rows(g));
    x, y := g.minCols + i % Columns(g), g.minRows + i / Columns(g);
  }

  /**
   * How far the surviving region is shortened on the side the view moved
   * away from: `cols` extra columns, `ahead` extra rows when moving down the
   * rows, `behind` extra rows when moving up.
   */
  datatype Margins = Margins(cols: nat, ahead: nat, behind: nat)

  /** The bounds fMinCols..fMaxCols, fMinRows..fMaxRows of the tiles that survive a translation. */
  function Kept(g: Grid, m: Margins, dtx: int, dty: int): Grid {
    Grid(if dtx > 0 then g.minCols + dtx + m.cols else g.minCols,
         if dtx < 0 then g.maxCols + dtx - m.cols else g.maxCols,
         if dty > 0 then g.minRows + dty + m.ahead else g.minRows,
         if dty < 0 then g.maxRows + dty - m.behind else g.maxRows)
  }

  /**
   * Tile (x, y) of the translated view keeps its flag: it lies in the
   * shortened bounds, and so do both it and the tile it comes from, inside
   * the grid.
   */
  predicate InKept(g: Grid, m: Margins, dtx: int, dty: int, x: int, y: int): (r: bool)
    ensures r ==> InGrid(g, x, y) && InGrid(g, x - dtx, y - dty)
  {
    var k := Kept(g, m, dtx, dty);
    k.minCols <= x <= k.maxCols && k.minRows <= y <= k.maxRows
  }

  /** The flag tile (x, y) gets from `before` in the translated view. */
  predicate MovedFlag(g: Grid, m: Margins, dtx: int, dty: int, before: seq<bool>, x: int, y: int)
    requires |before| == Size(g)
  {
    InKept(g, m, dtx, dty, x, y) && before[CellIndex(g, x - dtx, y - dty)]
  }

  /**
   * The drawn-tiles buffer after a translation by (dtx, dty): a tile in the
   * shortened bounds has the flag of the tile it was moved from, every other
   * tile is not drawn.
   */
  ghost predicate IsReindexed(g: Grid, m: Margins, dtx: int, dty: int, before: seq<bool>, after: seq<bool>) {
    |before| == Size(g) && |after| == Size(g) &&
    forall x, y | InGrid(g, x, y) :: after[CellIndex(g, x, y)] == MovedFlag(g, m, dtx, dty, before, x, y)
  }

  /** The reindexed buffer is determined by the old one. */
  lemma {:induction false} ReindexedUnique(g: Grid, m: Margins, dtx: int, dty: int, before: seq<bool>, a: seq<bool>, b: seq<bool>)
    requires WellFormed(g)
    requires IsReindexed(g, m, dtx, dty, before, a) && IsReindexed(g, m, dtx, dty, before, b)
    ensures a == b
  {
    forall i | 0 <= i < |a|
      ensures a[i] == b[i]
    {
      var x, y := CellIndexOnto(g, i);
      assert a[CellIndex(g, x, y)] == b[CellIndex(g, x, y)];
    }
  }

  /** Without movement nothing is shortened and the buffer is kept as it is. */
  lemma {:induction false} ReindexStill(g: Grid, m: Margins, before: seq<bool>, after: seq<bool>)
    requires WellFormed(g) && IsReindexed(g, m, 0, 0, before, after)
    ensures after == before
  {
    forall i | 0 <= i < |after|
      ensures after[i] == before[i]
    {
      var x, y := CellIndexOnto(g, i);
      assert after[CellIndex(g, x, y)] == before[CellIndex(g, x, y)];
    }
  }

  /** A translation only forgets drawn tiles: a drawn cell comes from a drawn cell. */
  lemma {:induction false} ReindexOnlyForgets(g: Grid, m: Margins, dtx: int, dty: int, before: seq<bool>, after: seq<bool>, i: int)
    requires WellFormed(g) && IsReindexed(g, m, dtx, dty, before, after)
    requires 0 <= i < |after| && after[i]
    ensures 0 <= i - (dty * Columns(g) + dtx) < |before| && before[i - (dty * Columns(g) + dtx)]
  {
    var x, y := CellIndexOnto(g, i);
    assert after[CellIndex(g, x, y)];
    var j := CellIndex(g, x - dtx, y - dty);
    MulSubtract(y - g.minRows, dty, Columns(g));
    assert j == i - (dty * Columns(g) + dtx);
  }

  lemma MulSubtract(a: int, d: int, w: int)
    ensures (a - d) * w == a * w - d * w
  {
  }

  /** Tile (sx, sy) comes before (cx, cy) in row-major order. */
  predicate Visited(sx: int, sy: int, cx: int, cy: int) {
    sy < cy || (sy == cy && sx < cx)
  }

  /** The new buffer once every tile before (cx, cy) has been moved. */
  ghost predicate PartlyReindexed(g: Grid, m: Margins, dtx: int, dty: int, before: seq<bool>, after: seq<bool>,
                                  cx: int, cy: int) {
    |before| == Size(g) && |after| == Size(g) &&
    forall x, y | InGrid(g, x, y) ::
      after[CellIndex(g, x, y)] == (MovedFlag(g, m, dtx, dty, before, x, y) && Visited(x - dtx, y - dty, cx, cy))
  }

  /** Moving tile (cx, cy) writes exactly the cell of (cx + dtx, cy + dty) when that tile survives. */
  lemma {:induction false} ReindexStep(g: Grid, m: Margins, dtx: int, dty: int, before: seq<bool>, after: seq<bool>,
                                       cx: int, cy: int) returns (after': seq<bool>)
    requires InGrid(g, cx, cy) && PartlyReindexed(g, m, dtx, dty, before, after, cx, cy)
    ensures var t := CellIndex(g, cx, cy) + dty * Columns(g) + dtx;
      InKept(g, m, dtx, dty, cx + dtx, cy + dty) ==> 0 <= t < |after|
    ensures var t := CellIndex(g, cx, cy) + dty * Columns(g) + dtx;
      after' == if InKept(g, m, dtx, dty, cx + dtx, cy + dty) then after[t := before[CellIndex(g, cx, cy)]] else after
    ensures PartlyReindexed(g, m, dtx, dty, before, after', cx + 1, cy)
  {
    var t := CellIndex(g, cx, cy) + dty * Columns(g) + dtx;
    if InKept(g, m, dtx, dty, cx + dtx, cy + dty) {
      assert (cy + dty - g.minRows) * Columns(g) == (cy - g.minRows) * Columns(g) + dty * Columns(g);
      assert t == CellIndex(g, cx + dtx, cy + dty);
      after' := after[t := before[CellIndex(g, cx, cy)]];
      forall x, y | InGrid(g, x, y)
        ensures after'[CellIndex(g, x, y)] ==
          (MovedFlag(g, m, dtx, dty, before, x, y) && Visited(x - dtx, y - dty, cx + 1, cy))
      {
        if CellIndex(g, x, y) == t {
          CellIndexInjective(g, x, y, cx + dtx, cy + dty);
        }
      }
    } else {
      after' := after;
    }
  }

  /** Past the last column of row `cy`, the scan continues at the start of the next row. */
  lemma NextReindexRow(g: Grid, m: Margins, dtx: int, dty: int, before: seq<bool>, after: seq<bool>, cy: int)
    requires PartlyReindexed(g, m, dtx, dty, before, after, g.maxCols + 1, cy)
    ensures PartlyReindexed(g, m, dtx, dty, before, after, g.minCols, cy + 1)
  {
  }

  /** Once every row has been scanned, every surviving tile has been moved. */
  lemma FinishReindex(g: Grid, m: Margins, dtx: int, dty: int, before: seq<bool>, after: seq<bool>)
    requires PartlyReindexed(g, m, dtx, dty, before, after, g.minCols, g.maxRows + 1)
    ensures IsReindexed(g, m, dtx, dty, before, after)
  {
  }

  /**
   * The translation of the drawn-tiles buffer in moveStartBlock and
   * moveTiles: every tile of the old buffer, in row-major order, is copied
   * to its moved position when that position is in the shortened bounds.
   */
  method Reindex(g: Grid, m: Margins, dtx: int, dty: int, drawn: array<bool>) returns (moved: array<bool>)
    requires WellFormed(g) && drawn.Length == Size(g)
    ensures fresh(moved)
    ensures IsReindexed(g, m, dtx, dty, drawn[..], moved[..])
  {
    moved := new bool[drawn.Length](_ => false);
    var tileIdx := -1;
    var y := g.minRows;
    while y <= g.maxRows
      invariant g.minRows <= y <= g.maxRows + 1
      invariant tileIdx + 1 == (y - g.minRows) * Columns(g)
      invariant PartlyReindexed(g, m, dtx, dty, drawn[..], moved[..], g.minCols, y)
    {
      tileIdx := ReindexRow(g, m, dtx, dty, drawn, moved, y, tileIdx);
      assert (y + 1 - g.minRows) * Columns(g) == (y - g.minRows) * Columns(g) + Columns(g);
      y := y + 1;
    }
    FinishReindex(g, m, dtx, dty, drawn[..], moved[..]);
  }

  /** The inner loop of the translation: the tiles of row `y`. */
  method ReindexRow(g: Grid, m: Margins, dtx: int, dty: int, drawn: array<bool>, moved: array<bool>, y: int, tileIdx: int)
    returns (tileIdx': int)
    requires drawn != moved && g.minRows <= y <= g.maxRows
    requires tileIdx + 1 == (y - g.minRows) * Columns(g)
    requires PartlyReindexed(g, m, dtx, dty, drawn[..], moved[..], g.minCols, y)
    modifies moved
    ensures tileIdx' == tileIdx + Columns(g)
    ensures PartlyReindexed(g, m, dtx, dty, drawn[..], moved[..], g.minCols, y + 1)
  {
    var k := Kept(g, m, dtx, dty);
    var w := Columns(g);
    tileIdx' := tileIdx;
    var x := g.minCols;
    while x <= g.maxCols
      invariant g.minCols <= x <= g.maxCols + 1
      invariant tileIdx' + 1 == (y - g.minRows) * w + (x - g.minCols)
      invariant PartlyReindexed(g, m, dtx, dty, drawn[..], moved[..], x, y)
    {
      tileIdx' := tileIdx' + 1;
      assert tileIdx' == CellIndex(g, x, y);
      var value := drawn[tileIdx'];
      ghost var next := ReindexStep(g, m, dtx, dty, drawn[..], moved[..], x, y);
      var mx := x + dtx;
      var my := y + dty;
      if mx >= k.minCols && mx <= k.maxCols && my >= k.minRows && my <= k.maxRows {
        var index := tileIdx';
        index := index + (dty * w + dtx);
        moved[index] := value;
      }
      assert moved[..] == next;
      x := x + 1;
    }
    NextReindexRow(g, m, dtx, dty, drawn[..], moved[..], y);
  }

  /**
   * The depth buffer after a vertical move by `d` rows: every depth other
   * than the "nothing drawn" value `maxDepth` is lowered by `d`.
   */
  function ShiftedDepths(depths: seq<int>, d: int, maxDepth: int): (r: seq<int>)
    ensures |r| == |depths|
  {
    seq(|depths|, i requires 0 <= i < |depths| => if depths[i] == maxDepth then maxDepth else depths[i] - d)
  }

  /**
   * Moving back undoes a move, as long as no depth was moved onto the
   * "nothing drawn" value; pixels where nothing is drawn stay that way.
   */
  lemma ShiftedDepthsInverse(depths: seq<int>, d: int, maxDepth: int)
    requires forall i | 0 <= i < |depths| :: depths[i] != maxDepth ==> depths[i] - d != maxDepth
    ensures ShiftedDepths(ShiftedDepths(depths, d, maxDepth), -d, maxDepth) == depths
    ensures forall i | 0 <= i < |depths| :: ShiftedDepths(depths, d, maxDepth)[i] == maxDepth <==> depths[i] == maxDepth
  {
  }

  /** MapCanvas.clearDepthBuffer: every pixel back to the depth where nothing is drawn. */
  method ClearDepths(buffer: array<int>, maxDepth: int)
    modifies buffer
    ensures forall i | 0 <= i < buffer.Length :: buffer[i] == maxDepth
  {
    forall i | 0 <= i < buffer.Length {
      buffer[i] := maxDepth;
    }
  }

  /** A cleared buffer stays cleared when the view moves vertically. */
  lemma {:induction false} ShiftCleared(depths: seq<int>, d: int, maxDepth: int)
    requires forall i | 0 <= i < |depths| :: depths[i] == maxDepth
    ensures ShiftedDepths(depths, d, maxDepth) == depths
  {
  }

  /** The in-place loop over the depth buffer of a translation. */
  method ShiftDepths(buffer: array<int>, d: int, maxDepth: int)
    modifies buffer
    ensures buffer[..] == ShiftedDepths(old(buffer[..]), d, maxDepth)
  {
    var i := 0;
    while i < buffer.Length
      invariant 0 <= i <= buffer.Length
      invariant forall j | 0 <= j < i :: buffer[j] == ShiftedDepths(old(buffer[..]), d, maxDepth)[j]
      invariant forall j | i <= j < buffer.Length :: buffer[j] == old(buffer[j])
    {
      if buffer[i] != maxDepth {
        buffer[i] := buffer[i] - d;
      }
      i := i + 1;
    }
  }

  /**
   * One slice over the whole grid: every tile not yet drawn whose draw
   * leaves no void behind it becomes drawn, and nothing else changes.
   */
  ghost predicate SliceApplied(g: Grid, before: seq<bool>, after: seq<bool>, voidRemains: (int, int) -> bool) {
    |before| == Size(g) && |after| == Size(g) &&
    forall x, y | InGrid(g, x, y) ::
      after[CellIndex(g, x, y)] == (before[CellIndex(g, x, y)] || !voidRemains(x, y))
  }

  /** A slice only ever marks tiles drawn, and only those fully covered by the draw. */
  lemma {:induction false} SliceOnlyMarksCovered(g: Grid, before: seq<bool>, after: seq<bool>, voidRemains: (int, int) -> bool, i: int)
    requires WellFormed(g) && SliceApplied(g, before, after, voidRemains) && 0 <= i < |after|
    ensures before[i] ==> after[i]
    ensures after[i] && !before[i] ==> exists x, y :: InGrid(g, x, y) && CellIndex(g, x, y) == i && !voidRemains(x, y)
  {
    var x, y := CellIndexOnto(g, i);
  }

  /**
   * The inner loop of renderSlice over the columns of row `ty`, whose
   * cells start at index `start`: a tile not yet drawn is drawn, and marked
   * drawn when no void remains behind it.
   */
  method RenderRow(g: Grid, drawn: array<bool>, ty: int, start: int, voidRemains: (int, int) -> bool)
    requires WellFormed(g) && 0 <= start && start + Columns(g) <= drawn.Length
    modifies drawn
    ensures forall i | start <= i < start + Columns(g) ::
      drawn[i] == (old(drawn[i]) || !voidRemains(g.minCols + (i - start), ty))
    ensures forall i | 0 <= i < drawn.Length && !(start <= i < start + Columns(g)) :: drawn[i] == old(drawn[i])
  {
    var tileIdx := start - 1;
    var tx := g.minCols;
    while tx <= g.maxCols
      invariant g.minCols <= tx <= g.maxCols + 1 && tileIdx + 1 == start + (tx - g.minCols)
      invariant forall i | start <= i <= tileIdx ::
        drawn[i] == (old(drawn[i]) || !voidRemains(g.minCols + (i - start), ty))
      invariant forall i | 0 <= i < drawn.Length && !(start <= i <= tileIdx) :: drawn[i] == old(drawn[i])
    {
      tileIdx := tileIdx + 1;
      if !drawn[tileIdx] && !voidRemains(tx, ty) {
        drawn[tileIdx] := true;
      }
      tx := tx + 1;
    }
  }

  /** The rows before `ty` have had their slice, the others are untouched. */
  ghost predicate RowsApplied(g: Grid, before: seq<bool>, after: seq<bool>, voidRemains: (int, int) -> bool, ty: int) {
    |before| == Size(g) && |after| == Size(g) &&
    (forall x, y | InGrid(g, x, y) && y < ty ::
      after[CellIndex(g, x, y)] == (before[CellIndex(g, x, y)] || !voidRemains(x, y))) &&
    (forall x, y | InGrid(g, x, y) && y >= ty :: after[CellIndex(g, x, y)] == before[CellIndex(g, x, y)])
  }

  /** Rendering row `ty`, whose cells start at `start`, extends the rows that have had their slice by one. */
  lemma {:induction false} RowApplied(g: Grid, before: seq<bool>, mid: seq<bool>, after: seq<bool>,
                                      voidRemains: (int, int) -> bool, ty: int, start: int)
    requires WellFormed(g) && g.minRows <= ty <= g.maxRows
    requires start == CellIndex(g, g.minCols, ty) && start + Columns(g) <= Size(g)
    requires RowsApplied(g, before, mid, voidRemains, ty) && |after| == Size(g)
    requires forall i | start <= i < start + Columns(g) :: after[i] == (mid[i] || !voidRemains(g.minCols + (i - start), ty))
    requires forall i | 0 <= i < |after| && !(start <= i < start + Columns(g)) :: after[i] == mid[i]
    ensures RowsApplied(g, before, after, voidRemains, ty + 1)
  {
    forall x | g.minCols <= x <= g.maxCols
      ensures after[CellIndex(g, x, ty)] == (mid[CellIndex(g, x, ty)] || !voidRemains(x, ty))
    {
      assert CellIndex(g, x, ty) == start + (x - g.minCols);
    }
    forall x, y | InGrid(g, x, y) && y != ty
      ensures after[CellIndex(g, x, y)] == mid[CellIndex(g, x, y)]
    {
      CellOutsideRow(g, x, y, ty);
    }
  }

  /** The cell of a tile in another row lies outside the run of row `ty`. */
  lemma CellOutsideRow(g: Grid, x: int, y: int, ty: int)
    requires InGrid(g, x, y) && InGrid(g, g.minCols, ty) && y != ty
    ensures var start := CellIndex(g, g.minCols, ty);
      !(start <= CellIndex(g, x, y) < start + Columns(g))
  {
    var i := CellIndex(g, x, y);
    var start := CellIndex(g, g.minCols, ty);
    if y < ty {
      IndexInBounds(y - g.minRows, x - g.minCols, Columns(g), ty - g.minRows);
      assert i < start;
    } else {
      MulNonNegative(y - ty - 1, Columns(g));
      assert (y - g.minRows) * Columns(g) == (ty - g.minRows) * Columns(g) + Columns(g) + (y - ty - 1) * Columns(g);
      assert i >= start + Columns(g);
    }
  }

  /** Row `ty` starts right after the rows above it, and fits in the buffer. */
  lemma RowStart(g: Grid, ty: int)
    requires WellFormed(g) && g.minRows <= ty <= g.maxRows
    ensures CellIndex(g, g.minCols, ty) == (ty - g.minRows) * Columns(g)
    ensures CellIndex(g, g.minCols, ty) + Columns(g) <= Size(g)
    ensures (ty + 1 - g.minRows) * Columns(g) == (ty - g.minRows) * Columns(g) + Columns(g)
  {
    IndexInBounds(ty - g.minRows, Columns(g) - 1, Columns(g), Rows(g));
  }

  /**
   * renderSlice: the rows of the grid from top to bottom, each drawn with
   * RenderRow at the next run of buffer cells. A row for which `rowSkipped`
   * holds is passed over without advancing the buffer index; every caller's
   * row test gives the same answer for every row, so either every row is
   * drawn or none is.
   */
  method RenderSlice(g: Grid, drawn: array<bool>, voidRemains: (int, int) -> bool, rowSkipped: int -> bool)
    requires WellFormed(g) && drawn.Length == Size(g)
    requires forall ty :: rowSkipped(ty) == rowSkipped(g.minRows)
    modifies drawn
    ensures rowSkipped(g.minRows) ==> drawn[..] == old(drawn[..])
    ensures !rowSkipped(g.minRows) ==> SliceApplied(g, old(drawn[..]), drawn[..], voidRemains)
    ensures forall i | 0 <= i < drawn.Length :: old(drawn[i]) ==> drawn[i]
  {
    var tileIdx := -1;
    var ty := g.minRows;
    while ty <= g.maxRows
      invariant g.minRows <= ty <= g.maxRows + 1
      invariant rowSkipped(g.minRows) ==> tileIdx == -1 && drawn[..] == old(drawn[..])
      invariant !rowSkipped(g.minRows) ==> tileIdx + 1 == (ty - g.minRows) * Columns(g)
      invariant !rowSkipped(g.minRows) ==> RowsApplied(g, old(drawn[..]), drawn[..], voidRemains, ty)
    {
      if rowSkipped(ty) {
        assert rowSkipped(g.minRows);
        ty := ty + 1;
        continue;
      }
      RowStart(g, ty);
      ghost var next := (ty + 1 - g.minRows) * Columns(g);
      ghost var mid := drawn[..];
      RenderRow(g, drawn, ty, tileIdx + 1, voidRemains);
      RowApplied(g, old(drawn[..]), mid, drawn[..], voidRemains, ty, tileIdx + 1);
      tileIdx := tileIdx + Columns(g);
      ty := ty + 1;
      assert tileIdx + 1 == next;
    }
    if !rowSkipped(g.minRows) {
      AllRowsApplied(g, old(drawn[..]), drawn[..], voidRemains);
      forall i | 0 <= i < drawn.Length
        ensures old(drawn[i]) ==> drawn[i]
      {
        SliceOnlyMarksCovered(g, old(drawn[..]), drawn[..], voidRemains, i);
      }
    }
  }

  /**
   * Whether a forward render that starts at depth `c0`, needed there
   * exactly when `f0`, still draws the slice at depth `z`: each slice
   * before it reported that more depth remains.
   */
  ghost predicate RendersAt(c0: int, f0: bool, more: int -> bool, z: int) {
    f0 && c0 <= z && forall d | c0 <= d < z :: more(d)
  }

  /** The need for the forward render continues past depth z only if the slice at z reported more depth. */
  lemma {:induction false} RendersNext(c0: int, f0: bool, more: int -> bool, z: int)
    requires c0 <= z
    ensures RendersAt(c0, f0, more, z + 1) == (RendersAt(c0, f0, more, z) && more(z))
  {
    if RendersAt(c0, f0, more, z) && more(z) {
      assert forall d | c0 <= d < z + 1 :: more(d);
    }
  }

  /**
   * The render loop over depths c0..c1-1, starting from `before`: a tile is
   * drawn afterwards exactly when it was drawn before or some slice the
   * loop still drew left no void behind it.
   */
  ghost predicate Swept(g: Grid, before: seq<bool>, after: seq<bool>, c0: int, c1: int, f0: bool,
                        more: int -> bool, voidAt: int -> ((int, int) -> bool)) {
    |before| == Size(g) && |after| == Size(g) &&
    forall x, y | InGrid(g, x, y) ::
      after[CellIndex(g, x, y)] ==
        (before[CellIndex(g, x, y)] || exists z | c0 <= z < c1 && RendersAt(c0, f0, more, z) :: !voidAt(z)(x, y))
  }

  /** No depth swept yet: nothing has changed. */
  lemma {:induction false} SweptNone(g: Grid, before: seq<bool>, c0: int, f0: bool,
                                     more: int -> bool, voidAt: int -> ((int, int) -> bool))
    requires |before| == Size(g)
    ensures Swept(g, before, before, c0, c0, f0, more, voidAt)
  {
  }

  /**
   * One more turn of the render loop at depth `z`: the slice is drawn when
   * the forward render is still needed, and otherwise nothing changes; the
   * need then continues only if the slice reported more depth.
   */
  lemma {:induction false} SweptStep(g: Grid, before: seq<bool>, mid: seq<bool>, after: seq<bool>, c0: int, z: int,
                                     f0: bool, more: int -> bool, voidAt: int -> ((int, int) -> bool))
    requires c0 <= z && Swept(g, before, mid, c0, z, f0, more, voidAt)
    requires RendersAt(c0, f0, more, z) ==> SliceApplied(g, mid, after, voidAt(z))
    requires !RendersAt(c0, f0, more, z) ==> after == mid
    ensures Swept(g, before, after, c0, z + 1, f0, more, voidAt)
    ensures RendersAt(c0, f0, more, z + 1) == (RendersAt(c0, f0, more, z) && more(z))
  {
    forall x, y | InGrid(g, x, y)
      ensures after[CellIndex(g, x, y)] ==
        (before[CellIndex(g, x, y)] || exists d | c0 <= d < z + 1 && RendersAt(c0, f0, more, d) :: !voidAt(d)(x, y))
    {
      if exists d | c0 <= d < z && RendersAt(c0, f0, more, d) :: !voidAt(d)(x, y) {
        var d :| c0 <= d < z && RendersAt(c0, f0, more, d) && !voidAt(d)(x, y);
        assert c0 <= d < z + 1;
      }
      if RendersAt(c0, f0, more, z) && !voidAt(z)(x, y) {
        assert c0 <= z < z + 1;
      }
    }
    RendersNext(c0, f0, more, z);
  }

  /** The render loop only ever marks tiles drawn, and none at all when no forward render was needed. */
  lemma {:induction false} SweptOnlyAdds(g: Grid, before: seq<bool>, after: seq<bool>, c0: int, c1: int, f0: bool,
                                         more: int -> bool, voidAt: int -> ((int, int) -> bool))
    requires WellFormed(g) && Swept(g, before, after, c0, c1, f0, more, voidAt)
    ensures forall i | 0 <= i < |after| :: before[i] ==> after[i]
    ensures !f0 ==> after == before
  {
    forall i | 0 <= i < |after|
      ensures before[i] ==> after[i]
      ensures !f0 ==> after[i] == before[i]
    {
      var x, y := CellIndexOnto(g, i);
    }
  }

  /** The first slice of a needed forward render is drawn. */
  lemma {:induction false} SweptFirst(g: Grid, before: seq<bool>, after: seq<bool>, c0: int, c1: int, f0: bool,
                                      more: int -> bool, voidAt: int -> ((int, int) -> bool), x: int, y: int)
    requires Swept(g, before, after, c0, c1, f0, more, voidAt)
    requires f0 && c0 < c1 && InGrid(g, x, y) && !voidAt(c0)(x, y)
    ensures after[CellIndex(g, x, y)]
  {
    assert RendersAt(c0, f0, more, c0);
  }

  /** Arrays.fill(drawnTiles, false): every tile is marked not drawn. */
  method ResetDrawn(drawn: array<bool>)
    modifies drawn
    ensures forall i | 0 <= i < drawn.Length :: !drawn[i]
  {
    var i := 0;
    while i < drawn.Length
      invariant 0 <= i <= drawn.Length
      invariant forall j | 0 <= j < i :: !drawn[j]
    {
      drawn[i] := false;
      i := i + 1;
    }
  }

  lemma AllRowsApplied(g: Grid, before: seq<bool>, after: seq<bool>, voidRemains: (int, int) -> bool)
    requires RowsApplied(g, before, after, voidRemains, g.maxRows + 1)
    ensures SliceApplied(g, before, after, voidRemains)
  {
  }
}
