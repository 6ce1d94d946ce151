/**
 * The render bookkeeping of MaplandsDisplay: the visible tile grid, the
 * depth range the render cursor sweeps, the drawn-tiles buffer, the dirty
 * tiles to redraw, the translation of the view, the menu selection and the
 * zoom. The canvas, the world and the clock are parameters: `isAir` says
 * whether the world block is air, `moreDepth(tx, ty, tz)` whether a sprite
 * drawn at tile (tx, ty) with the canvas draw depth set to tz still leaves
 * void pixels behind it, `sliceHasMoreDepth` whether the
 * canvas still has void pixels after a slice, and `withinBudget` whether
 * the tick's time budget still allows another slice.
 */
module Display {
  import opened Wrappers
  import opened MapUtil
  import opened ZoomLevels
  import opened RenderGrid
  import opened ViewControls
  import BlockBounds

  datatype RenderMode =
    | Initialize   // renders the entire map from scratch
    | FromCache    // the canvas already holds the colours and depths of a cache
    | Translation  // the canvas was moved and has missing areas

  /** The five menu buttons: zoom in, zoom out, rotate left, rotate right, marker. */
  const MenuButtonCount: nat := 5

  /** moveStartBlock shortens the surviving region by one column and seven or five rows. */
  const DisplayMargins: Margins := Margins(1, 7, 5)

  /** Worlds hold blocks at heights 0 to 255. */
  const WorldHeight: int := 256

  /** What drawing one block needs to know about the view. */
  datatype View = View(facing: BlockFace, start: IntVector3, zoom: ZoomLevel, canvasWidth: int)

  /** The outcome of drawBlockAtTile: not drawn, or drawn at a pixel column with or without void left behind. */
  datatype DrawOutcome = Skipped | Drawn(drawX: int, voidRemains: bool)

  /** The world block at `rel` from the start block. */
  function WorldBlock(view: View, rel: IntVector3): IntVector3 {
    Add(view.start, rel)
  }

  /**
   * drawBlockAtTile: a block outside the world's height is not drawn, nor is
   * an air block during a redraw; any other block's sprite is drawn at the
   * tile's pixel column, offset to the middle of the canvas.
   */
  function DrawBlockAtTile(view: View, rel: IntVector3, tx: int, ty: int, tz: int, isRedraw: bool,
                           isAir: IntVector3 -> bool, moreDepth: (int, int, int) -> bool): (r: DrawOutcome)
    ensures r.Skipped? <==>
      !(0 <= WorldBlock(view, rel).y < WorldHeight) || (isRedraw && isAir(WorldBlock(view, rel)))
    ensures r.Drawn? ==> r.voidRemains == moreDepth(tx, ty, tz)
    ensures r.Drawn? ==> r.drawX == (Width(view.zoom) / 2) * (tx - 1) + view.canvasWidth / 2
  {
    var b := WorldBlock(view, rel);
    if 0 <= b.y < WorldHeight then
      if !isAir(b) || !isRedraw then
        Drawn(DrawX(view.zoom, tx) + view.canvasWidth / 2, moreDepth(tx, ty, tz))
      else
        Skipped
    else
      Skipped
  }

  /** The return value of drawBlockAtTile: whether void may remain behind the tile. */
  predicate VoidRemains(o: DrawOutcome) {
    o.Skipped? || o.voidRemains
  }

  /**
   * drawBlockTile: whether void remains behind tile (tx, ty) at depth tz.
   * A position that is not a tile, or a facing that is not diagonal, draws
   * nothing and leaves void.
   */
  function DrawBlockTile(view: View, tx: int, ty: int, tz: int, isRedraw: bool,
                         isAir: IntVector3 -> bool, moreDepth: (int, int, int) -> bool): (r: bool)
    ensures !(IsTile(tx, ty, tz) && IsDiagonal(view.facing)) ==> r
    ensures IsTile(tx, ty, tz) && IsDiagonal(view.facing) ==>
      var b := WorldBlock(view, ScreenTileToBlock(view.facing, IntVector3(tx, ty, tz)).value);
      (r <==> !(0 <= b.y < WorldHeight) || (isRedraw && isAir(b)) || moreDepth(tx, ty, tz))
  {
    match ScreenTileToBlock(view.facing, IntVector3(tx, ty, tz))
    case None => true
    case Some(rel) => VoidRemains(DrawBlockAtTile(view, rel, tx, ty, tz, isRedraw, isAir, moreDepth))
  }

  /** What one slice at `depth` reports for each tile: whether void remains behind it. */
  function SliceVoid(view: View, depth: int, isAir: IntVector3 -> bool, moreDepth: (int, int, int) -> bool): (int, int) -> bool {
    (tx, ty) => DrawBlockTile(view, tx, ty, depth, true, isAir, moreDepth)
  }

  /** Whether redrawing a dirty tile, not as part of a slice, leaves a hole behind it. */
  function HoleAfterRedraw(view: View, isAir: IntVector3 -> bool, moreDepth: (int, int, int) -> bool): IntVector3 -> bool {
    (t: IntVector3) => DrawBlockTile(view, t.x, t.y, t.z, false, isAir, moreDepth)
  }

  /** What the slice at each depth reports for each tile. */
  function SliceVoids(view: View, isAir: IntVector3 -> bool, moreDepth: (int, int, int) -> bool): int -> ((int, int) -> bool) {
    depth => SliceVoid(view, depth, isAir, moreDepth)
  }

  /**
   * The row test of renderSlice, `ty < ty - startY || ty > ty + (256 - startY)`.
   * It does not depend on the row: it skips every row, or none.
   */
  function RowSkipped(startY: int, ty: int): (r: bool)
    ensures r <==> startY < 0 || startY > WorldHeight
  {
    ty < ty - startY || ty > ty + (WorldHeight - startY)
  }

  /** The grid of `c` columns and `r` rows on either side of the start tile. */
  function Centred(c: int, r: int): Grid {
    Grid(-c, c, -r, r)
  }

  /** The 3 by 5 tiles around `t` that a hole left by a redraw of `t` schedules again. */
  predicate InNeighbourhood(t: IntVector3, x: int, y: int) {
    t.x - 1 <= x <= t.x + 1 && t.y - 2 <= y <= t.y + 2
  }

  /**
   * After a redraw of dirty tile `t` left a hole: every tile of its
   * neighbourhood in the grid is not drawn, the forward render is needed and
   * the cursor is at or before `t`'s depth.
   */
  ghost predicate Rescheduled(g: Grid, drawn: seq<bool>, cursor: int, forward: bool, t: IntVector3) {
    |drawn| == Size(g) &&
    forall x, y | InGrid(g, x, y) && InNeighbourhood(t, x, y) ::
      !drawn[CellIndex(g, x, y)] && cursor <= t.z && forward
  }

  /** Only clearing tiles, lowering the cursor and requesting a forward render keeps a neighbourhood rescheduled. */
  lemma RescheduledStays(g: Grid, a: seq<bool>, b: seq<bool>, c: int, c': int, f: bool, f': bool, t: IntVector3)
    requires Rescheduled(g, a, c, f, t) && |b| == |a|
    requires forall i | 0 <= i < |b| :: b[i] ==> a[i]
    requires c' <= c && (f ==> f')
    ensures Rescheduled(g, b, c', f', t)
  {
    forall x, y | InGrid(g, x, y) && InNeighbourhood(t, x, y)
      ensures !b[CellIndex(g, x, y)]
    {
      assert !a[CellIndex(g, x, y)];
    }
  }

  /** Some tile of the neighbourhood of `t` lies on the grid. */
  predicate Reaches(g: Grid, t: IntVector3) {
    g.minCols <= t.x + 1 && t.x - 1 <= g.maxCols && g.minRows <= t.y + 2 && t.y - 2 <= g.maxRows
  }

  /** invalidateTile's cursor update: back to depth `z` when the cursor is beyond it. */
  function Lowered(cursor: int, z: int): int {
    if cursor > z then z else cursor
  }

  /**
   * The effect of the two invalidation loops around a hole at `t`, from
   * buffer `a`, cursor `c` and forward flag `f` to `b`, `c'` and `f'`: the
   * tiles of the neighbourhood on the grid are not drawn and all others
   * keep their flag; when some of them lie on the grid a forward render is
   * requested and the cursor moves back to t's depth, otherwise both stay.
   */
  ghost predicate Invalidated(g: Grid, a: seq<bool>, b: seq<bool>, c: int, c': int, f: bool, f': bool, t: IntVector3) {
    |a| == Size(g) && |b| == Size(g) &&
    (forall x, y | InGrid(g, x, y) :: b[CellIndex(g, x, y)] == (!InNeighbourhood(t, x, y) && a[CellIndex(g, x, y)])) &&
    (Reaches(g, t) ==> f' && c' == Lowered(c, t.z)) &&
    (!Reaches(g, t) ==> f' == f && c' == c)
  }

  /**
   * The effect of redrawing the tiles of `dirty`, those for which `hole`
   * holds leaving a hole: each hole's neighbourhood is rescheduled, every
   * tile outside all of them keeps its flag, the cursor is the smallest of
   * its old value and the depths of the holes that reach the grid, and a
   * forward render is needed exactly when it was or such a hole exists.
   */
  ghost predicate Redrawn(g: Grid, a: seq<bool>, b: seq<bool>, c: int, c': int, f: bool, f': bool,
                          dirty: set<IntVector3>, hole: IntVector3 -> bool) {
    |a| == Size(g) && |b| == Size(g) &&
    (forall t | t in dirty && hole(t) :: Rescheduled(g, b, c', f', t)) &&
    (forall x, y | InGrid(g, x, y) && (forall t | t in dirty && hole(t) :: !InNeighbourhood(t, x, y)) ::
       b[CellIndex(g, x, y)] == a[CellIndex(g, x, y)]) &&
    c' <= c && (c' == c || exists t | t in dirty && hole(t) && Reaches(g, t) :: c' == t.z) &&
    f' == (f || exists t | t in dirty && hole(t) :: Reaches(g, t))
  }

  /** Before any dirty tile is handled nothing has changed. */
  lemma RedrawnNone(g: Grid, a: seq<bool>, c: int, f: bool, hole: IntVector3 -> bool)
    requires |a| == Size(g)
    ensures Redrawn(g, a, a, c, c, f, f, {}, hole)
  {
  }

  /** Moving one tile from the remaining ones to those handled keeps the two apart and together the whole set. */
  lemma MoveToDone(all: set<IntVector3>, remaining: set<IntVector3>, done: set<IntVector3>, tile: IntVector3)
    requires remaining <= all && done == all - remaining && tile in remaining
    ensures remaining - {tile} <= all && done + {tile} == all - (remaining - {tile})
    ensures |remaining - {tile}| < |remaining|
  {
  }

  /** The effect stated for one description of the handled tiles holds for an equal one. */
  lemma RedrawnSame(g: Grid, a: seq<bool>, b: seq<bool>, c: int, c': int, f: bool, f': bool,
                    d1: set<IntVector3>, d2: set<IntVector3>, hole: IntVector3 -> bool)
    requires Redrawn(g, a, b, c, c', f, f', d1, hole) && d1 == d2
    ensures Redrawn(g, a, b, c, c', f, f', d2, hole)
  {
  }

  /** Redrawing dirty tiles only ever marks tiles not drawn. */
  lemma {:induction false} RedrawnOnlyClears(g: Grid, a: seq<bool>, b: seq<bool>, c: int, c': int, f: bool, f': bool,
                                             dirty: set<IntVector3>, hole: IntVector3 -> bool)
    requires WellFormed(g) && Redrawn(g, a, b, c, c', f, f', dirty, hole)
    ensures forall i | 0 <= i < |b| :: b[i] ==> a[i]
  {
    forall i | 0 <= i < |b| && b[i]
      ensures a[i]
    {
      var x, y := CellIndexOnto(g, i);
      assert forall t | t in dirty && hole(t) :: !InNeighbourhood(t, x, y);
    }
  }

  /** Handling one more dirty tile: invalidating around it when it is a hole, nothing otherwise. */
  lemma {:induction false} RedrawStep(g: Grid, a: seq<bool>, b: seq<bool>, b2: seq<bool>, c: int, c1: int, c2: int,
                                      f: bool, f1: bool, f2: bool, done: set<IntVector3>, hole: IntVector3 -> bool, tile: IntVector3)
    requires Redrawn(g, a, b, c, c1, f, f1, done, hole)
    requires hole(tile) ==> Invalidated(g, b, b2, c1, c2, f1, f2, tile)
    requires !hole(tile) ==> b2 == b && c2 == c1 && f2 == f1
    requires forall i | 0 <= i < |b2| :: b2[i] ==> b[i]
    ensures Redrawn(g, a, b2, c, c2, f, f2, done + {tile}, hole)
  {
    var all := done + {tile};
    assert c2 <= c1;
    assert f1 ==> f2;
    forall t | t in all && hole(t)
      ensures Rescheduled(g, b2, c2, f2, t)
    {
      if t in done {
        RescheduledStays(g, b, b2, c1, c2, f1, f2, t);
      } else {
        forall x, y | InGrid(g, x, y) && InNeighbourhood(t, x, y)
          ensures !b2[CellIndex(g, x, y)] && c2 <= t.z && f2
        {
          assert Reaches(g, t);
        }
      }
    }
    forall x, y | InGrid(g, x, y) && (forall t | t in all && hole(t) :: !InNeighbourhood(t, x, y))
      ensures b2[CellIndex(g, x, y)] == a[CellIndex(g, x, y)]
    {
      assert forall t | t in done && hole(t) :: !InNeighbourhood(t, x, y);
      assert hole(tile) ==> !InNeighbourhood(tile, x, y);
    }
    if c2 != c {
      if c2 == c1 {
        var t :| t in done && hole(t) && Reaches(g, t) && c1 == t.z;
        assert t in all;
      } else {
        assert tile in all && hole(tile) && Reaches(g, tile) && c2 == tile.z;
      }
    }
    if exists t | t in done && hole(t) :: Reaches(g, t) {
      var t :| t in done && hole(t) && Reaches(g, t);
      assert t in all;
    }
    if hole(tile) && Reaches(g, tile) {
      assert tile in all;
    }
    if exists t | t in all && hole(t) :: Reaches(g, t) {
      var t :| t in all && hole(t) && Reaches(g, t);
      assert t in done || t == tile;
    }
  }

  class MaplandsDisplay {
    /** The start block (the properties px, py, pz), the facing and the zoom of the view. */
    var start: IntVector3
    var facing: BlockFace
    var zoom: ZoomLevel
    /** The persisted "finishedRendering" property. */
    var finishedRendering: bool
    var minCols: int
    var maxCols: int
    var minRows: int
    var maxRows: int
    var minimumRenderZ: int
    var maximumRenderZ: int
    var currentRenderZ: int
    var forwardRenderNeeded: bool
    var drawnTiles: array<bool>
    var dirtyTiles: set<IntVector3>
    var menuSelectIndex: int
    var buttonSelected: seq<bool>
    /** The box of world blocks the view can show, recomputed by every render. */
    const blockBounds: BlockBounds.MapBlockBounds
    /** The canvas depth buffer and the canvas size in pixels. */
    const depthBuffer: array<int>
    /** MapCanvas.MAX_DEPTH: the depth of a pixel where nothing is drawn, a constant of the server library. */
    const maxDepth: int
    const canvasWidth: nat
    const canvasHeight: nat

    function GridOf(): Grid
      reads this
    {
      Grid(minCols, maxCols, minRows, maxRows)
    }

    function ViewOf(): View
      reads this
    {
      View(facing, start, zoom, canvasWidth)
    }

    /**
     * The tile range render passes to blockBounds.update, in the order the
     * call writes it: columns, then the depth range, then rows.
     */
    function BoundsLo(): IntVector3
      reads this
    {
      IntVector3(minCols, minimumRenderZ, minRows)
    }

    function BoundsHi(): IntVector3
      reads this
    {
      IntVector3(maxCols, maximumRenderZ, maxRows)
    }

    /** The block bounds are those of the current view. */
    ghost predicate BoundsCurrent()
      reads this, blockBounds
    {
      BlockBounds.TightBox(BlockBounds.Image(facing), BoundsLo(), BoundsHi(), start, blockBounds.Min(), blockBounds.Max())
    }

    /**
     * The grid is centred on the start tile, the buffer has one flag per
     * tile, dirty tiles are on the grid, the cursor never passes one beyond
     * the last depth, and a cursor beyond it means rendering has finished.
     */
    ghost predicate Valid()
      reads this
    {
      Shaped() &&
      (forall t | t in dirtyTiles :: InGrid(GridOf(), t.x, t.y)) &&
      currentRenderZ <= maximumRenderZ + 1 &&
      (currentRenderZ > maximumRenderZ ==> finishedRendering)
    }

    /** The grid, the buffer and the menu agree, whatever the cursor. */
    ghost predicate Shaped()
      reads this
    {
      0 <= maxCols && minCols == -maxCols && 0 <= maxRows && minRows == -maxRows &&
      drawnTiles.Length == Size(GridOf()) &&
      0 <= menuSelectIndex < MenuButtonCount && |buttonSelected| == MenuButtonCount
    }

    /**
     * onAttached: the view as stored in the map's properties, and a first
     * render from the cache when the cache held the canvas, from scratch
     * otherwise. No menu button is selected yet.
     */
    constructor (start: IntVector3, facing: BlockFace, zoom: ZoomLevel, finishedRendering: bool,
                 depthBuffer: array<int>, maxDepth: int, canvasWidth: nat, canvasHeight: nat,
                 cacheLoaded: bool, nrColumns: nat, nrRows: nat)
      modifies depthBuffer
      ensures Valid()
      ensures this.start == start && this.facing == facing && this.zoom == zoom
      ensures this.depthBuffer == depthBuffer && this.maxDepth == maxDepth
      ensures this.canvasWidth == canvasWidth && this.canvasHeight == canvasHeight
      ensures !cacheLoaded ==> forall i | 0 <= i < depthBuffer.Length :: depthBuffer[i] == maxDepth
      ensures cacheLoaded ==> depthBuffer[..] == old(depthBuffer[..])
      ensures GridOf() == Centred(nrColumns, nrRows)
      ensures minimumRenderZ == -(nrRows as int) - (WorldHeight - start.y) && maximumRenderZ == nrRows + start.y
      ensures cacheLoaded && finishedRendering ==> currentRenderZ == maximumRenderZ && this.finishedRendering
      ensures !(cacheLoaded && finishedRendering) ==> currentRenderZ == minimumRenderZ && !this.finishedRendering
      ensures forwardRenderNeeded && dirtyTiles == {}
      ensures menuSelectIndex == 0 && buttonSelected == Selection(MenuButtonCount, -1)
      ensures forall i | 0 <= i < drawnTiles.Length :: !drawnTiles[i]
      ensures fresh(drawnTiles) && fresh(blockBounds) && BoundsCurrent()
    {
      this.start := start;
      this.facing := facing;
      this.zoom := zoom;
      this.finishedRendering := finishedRendering;
      this.depthBuffer := depthBuffer;
      this.maxDepth := maxDepth;
      this.canvasWidth := canvasWidth;
      this.canvasHeight := canvasHeight;
      drawnTiles := new bool[1];
      menuSelectIndex := 0;
      buttonSelected := Selection(MenuButtonCount, -1);
      minCols, maxCols, minRows, maxRows := 0, 0, 0, 0;
      minimumRenderZ, maximumRenderZ, currentRenderZ := 0, 0, 0;
      dirtyTiles := {};
      blockBounds := new BlockBounds.MapBlockBounds();
      new;
      Render(if cacheLoaded then FromCache else Initialize, nrColumns, nrRows);
    }

    /**
     * render: the grid of nrColumns columns and nrRows rows on either side
     * of the start tile, the depth range the cursor sweeps, the block bounds
     * of that view, the cursor at the start of that range unless a finished
     * render comes from the cache, and every tile to be drawn again unless
     * the view was only translated.
     */
    method Render(mode: RenderMode, nrColumns: nat, nrRows: nat)
      requires Valid()
      requires mode == Translation ==> nrColumns == maxCols && nrRows == maxRows
      modifies this, drawnTiles, depthBuffer, blockBounds
      ensures Valid() && BoundsCurrent()
      ensures GridOf() == Centred(nrColumns, nrRows)
      ensures minimumRenderZ == -(nrRows as int) - (WorldHeight - start.y) && maximumRenderZ == nrRows + start.y
      ensures mode == FromCache && old(finishedRendering) ==> currentRenderZ == maximumRenderZ && finishedRendering
      ensures !(mode == FromCache && old(finishedRendering)) ==> currentRenderZ == minimumRenderZ && !finishedRendering
      ensures forwardRenderNeeded && dirtyTiles == {}
      ensures mode != Translation ==> forall i | 0 <= i < drawnTiles.Length :: !drawnTiles[i]
      ensures mode != Translation ==> drawnTiles == old(drawnTiles) || fresh(drawnTiles)
      ensures mode == Translation ==> drawnTiles == old(drawnTiles) && drawnTiles[..] == old(drawnTiles[..])
      ensures start == old(start) && facing == old(facing) && zoom == old(zoom)
      ensures menuSelectIndex == old(menuSelectIndex) && buttonSelected == old(buttonSelected)
      ensures mode == Initialize ==> forall i | 0 <= i < depthBuffer.Length :: depthBuffer[i] == maxDepth
      ensures mode != Initialize ==> depthBuffer[..] == old(depthBuffer[..])
    {
      ResetView(mode, nrColumns, nrRows);
      UpdateBounds();
    }

    /** render without the bounds update. */
    method ResetView(mode: RenderMode, nrColumns: nat, nrRows: nat)
      requires Valid()
      requires mode == Translation ==> nrColumns == maxCols && nrRows == maxRows
      modifies this, drawnTiles, depthBuffer
      ensures Valid()
      ensures GridOf() == Centred(nrColumns, nrRows)
      ensures minimumRenderZ == -(nrRows as int) - (WorldHeight - start.y) && maximumRenderZ == nrRows + start.y
      ensures mode == FromCache && old(finishedRendering) ==> currentRenderZ == maximumRenderZ && finishedRendering
      ensures !(mode == FromCache && old(finishedRendering)) ==> currentRenderZ == minimumRenderZ && !finishedRendering
      ensures forwardRenderNeeded && dirtyTiles == {}
      ensures mode != Translation ==> forall i | 0 <= i < drawnTiles.Length :: !drawnTiles[i]
      ensures mode != Translation ==> drawnTiles == old(drawnTiles) || fresh(drawnTiles)
      ensures mode == Translation ==> drawnTiles == old(drawnTiles) && drawnTiles[..] == old(drawnTiles[..])
      ensures start == old(start) && facing == old(facing) && zoom == old(zoom)
      ensures menuSelectIndex == old(menuSelectIndex) && buttonSelected == old(buttonSelected)
      ensures mode == Initialize ==> forall i | 0 <= i < depthBuffer.Length :: depthBuffer[i] == maxDepth
      ensures mode != Initialize ==> depthBuffer[..] == old(depthBuffer[..])
    {
      if mode == Initialize {
        ClearDepths(depthBuffer, maxDepth);
      }
      SetBounds(nrColumns, nrRows);
      SetCursor(mode == FromCache);
      if mode != Translation {
        ResetTiles();
      }
    }

    /**
     * The bounds update of render, for the grid and depth range just set. It
     * depends on nothing the cursor or the drawn tiles hold.
     */
    method UpdateBounds()
      requires Valid()
      modifies blockBounds
      ensures Valid() && BoundsCurrent()
      ensures drawnTiles[..] == old(drawnTiles[..]) && depthBuffer[..] == old(depthBuffer[..])
    {
      blockBounds.Update(start, facing, BoundsLo(), BoundsHi());
    }

    /** The grid of nrColumns columns and nrRows rows around the start tile, and the depth range to sweep. */
    method SetBounds(nrColumns: nat, nrRows: nat)
      modifies this`minCols, this`maxCols, this`minRows, this`maxRows, this`minimumRenderZ, this`maximumRenderZ
      ensures GridOf() == Centred(nrColumns, nrRows)
      ensures minimumRenderZ == -(nrRows as int) - (WorldHeight - start.y) && maximumRenderZ == nrRows + start.y
    {
      minCols, maxCols := -(nrColumns as int), nrColumns;
      minRows, maxRows := -(nrRows as int), nrRows;
      minimumRenderZ := -(nrRows as int) - (WorldHeight - start.y);
      maximumRenderZ := nrRows + start.y;
    }

    /** The cursor at the end of the range for a finished render from the cache, at its start otherwise. */
    method SetCursor(fromCache: bool)
      requires minimumRenderZ <= maximumRenderZ
      modifies this`currentRenderZ, this`finishedRendering, this`forwardRenderNeeded, this`dirtyTiles
      ensures fromCache && old(finishedRendering) ==> currentRenderZ == maximumRenderZ && finishedRendering
      ensures !(fromCache && old(finishedRendering)) ==> currentRenderZ == minimumRenderZ && !finishedRendering
      ensures forwardRenderNeeded && dirtyTiles == {}
    {
      if fromCache && finishedRendering {
        currentRenderZ := maximumRenderZ;
      } else {
        currentRenderZ := minimumRenderZ;
        finishedRendering := false;
      }
      forwardRenderNeeded := true;
      dirtyTiles := {};
    }

    /** A buffer of the grid's size with every tile not drawn: a new one when the size changed. */
    method ResetTiles()
      requires WellFormed(GridOf())
      modifies this`drawnTiles, drawnTiles
      ensures drawnTiles.Length == Size(GridOf())
      ensures forall i | 0 <= i < drawnTiles.Length :: !drawnTiles[i]
      ensures drawnTiles == old(drawnTiles) || fresh(drawnTiles)
    {
      var len := (maxRows - minRows + 1) * (maxCols - minCols + 1);
      if len != drawnTiles.Length {
        drawnTiles := new bool[len](_ => false);
      } else {
        ResetDrawn(drawnTiles);
      }
    }

    /**
     * invalidateTile: a tile on the grid is marked not drawn, a forward
     * render is requested and the cursor moves back to its depth; a tile off
     * the grid changes nothing.
     */
    method InvalidateTile(tx: int, ty: int, tz: int)
      requires Valid()
      modifies this`currentRenderZ, this`forwardRenderNeeded, drawnTiles
      ensures Valid()
      ensures InGrid(GridOf(), tx, ty) ==>
        drawnTiles[..] == old(drawnTiles[..])[CellIndex(GridOf(), tx, ty) := false] &&
        forwardRenderNeeded &&
        currentRenderZ == (if old(currentRenderZ) > tz then tz else old(currentRenderZ))
      ensures !InGrid(GridOf(), tx, ty) ==>
        drawnTiles[..] == old(drawnTiles[..]) &&
        forwardRenderNeeded == old(forwardRenderNeeded) && currentRenderZ == old(currentRenderZ)
    {
      if tx >= minCols && tx <= maxCols && ty >= minRows && ty <= maxRows {
        var cx := tx - minCols;
        var cy := ty - minRows;
        assert cy * (maxCols - minCols + 1) + cx == CellIndex(GridOf(), tx, ty);
        drawnTiles[cy * (maxCols - minCols + 1) + cx] := false;
        forwardRenderNeeded := true;
        if currentRenderZ > tz {
          currentRenderZ := tz;
        }
      }
    }

    /**
     * The tail of onBlockChange: the screen tile of a changed block (absent
     * when the block has none) becomes dirty when it lies on the grid.
     */
    method AddDirtyTile(tile: Option<IntVector3>)
      requires Valid()
      modifies this`dirtyTiles
      ensures Valid()
      ensures tile.Some? && InGrid(GridOf(), tile.value.x, tile.value.y) ==> dirtyTiles == old(dirtyTiles) + {tile.value}
      ensures !(tile.Some? && InGrid(GridOf(), tile.value.x, tile.value.y)) ==> dirtyTiles == old(dirtyTiles)
    {
      if tile.None? || tile.value.x < minCols || tile.value.x > maxCols || tile.value.y < minRows || tile.value.y > maxRows {
        return;
      }
      dirtyTiles := dirtyTiles + {tile.value};
    }

    /**
     * onBlockChange: a change to block `b` of the world shown (`sameWorld`)
     * inside the block bounds makes its screen tile `tile` dirty; any other
     * change is ignored.
     */
    method OnBlockChange(sameWorld: bool, b: IntVector3, tile: Option<IntVector3>)
      requires Valid()
      modifies this`dirtyTiles
      ensures Valid()
      ensures sameWorld && blockBounds.Contains(b.x, b.y, b.z) && tile.Some? && InGrid(GridOf(), tile.value.x, tile.value.y) ==>
        dirtyTiles == old(dirtyTiles) + {tile.value}
      ensures !(sameWorld && blockBounds.Contains(b.x, b.y, b.z) && tile.Some? && InGrid(GridOf(), tile.value.x, tile.value.y)) ==>
        dirtyTiles == old(dirtyTiles)
    {
      if sameWorld && blockBounds.Contains(b.x, b.y, b.z) {
        AddDirtyTile(tile);
      }
    }

    /**
     * moveStartBlock: the start block moves by `d`. `dtx`, `dty` are the
     * tile offset and `pixelsDx`, `pixelsDy` the pixel offset of the move on
     * screen. A move of a canvas width or height or more renders everything
     * again; a smaller one moves the drawn-tiles buffer along with the
     * canvas, lowers the stored depths by `dty` when the view moves
     * vertically, and renders the missing areas.
     */
    method MoveStartBlock(d: IntVector3, dtx: int, dty: int, pixelsDx: int, pixelsDy: int)
      requires Valid()
      modifies this, drawnTiles, depthBuffer, blockBounds
      ensures Valid() && BoundsCurrent()
      ensures start == IntVector3(old(start).x + d.x, old(start).y + d.y, old(start).z + d.z)
      ensures facing == old(facing) && zoom == old(zoom)
      ensures menuSelectIndex == old(menuSelectIndex) && buttonSelected == old(buttonSelected)
      ensures GridOf() == old(GridOf())
      ensures minimumRenderZ == -maxRows - (WorldHeight - start.y) && maximumRenderZ == maxRows + start.y
      ensures currentRenderZ == minimumRenderZ && !finishedRendering && forwardRenderNeeded && dirtyTiles == {}
      ensures Abs(pixelsDx) >= canvasWidth || Abs(pixelsDy) >= canvasHeight ==>
        (forall i | 0 <= i < drawnTiles.Length :: !drawnTiles[i]) &&
        (forall i | 0 <= i < depthBuffer.Length :: depthBuffer[i] == maxDepth)
      ensures !(Abs(pixelsDx) >= canvasWidth || Abs(pixelsDy) >= canvasHeight) ==>
        IsReindexed(GridOf(), DisplayMargins, dtx, dty, old(drawnTiles[..]), drawnTiles[..]) &&
        depthBuffer[..] == (if dty != 0 then ShiftedDepths(old(depthBuffer[..]), dty, maxDepth) else old(depthBuffer[..]))
    {
      start := IntVector3(start.x + d.x, start.y + d.y, start.z + d.z);
      if Abs(pixelsDx) >= canvasWidth || Abs(pixelsDy) >= canvasHeight {
        Render(Initialize, maxCols, maxRows);
      } else {
        Translate(dtx, dty);
      }
    }

    /**
     * The small move of moveStartBlock: the drawn-tiles buffer moves by the
     * tile offset, the stored depths are lowered by `dty` when the view moves
     * vertically, and the missing areas are rendered.
     */
    method Translate(dtx: int, dty: int)
      requires Valid()
      modifies this, drawnTiles, depthBuffer, blockBounds
      ensures Valid() && BoundsCurrent()
      ensures start == old(start) && GridOf() == old(GridOf())
      ensures facing == old(facing) && zoom == old(zoom)
      ensures menuSelectIndex == old(menuSelectIndex) && buttonSelected == old(buttonSelected)
      ensures minimumRenderZ == -maxRows - (WorldHeight - start.y) && maximumRenderZ == maxRows + start.y
      ensures currentRenderZ == minimumRenderZ && !finishedRendering && forwardRenderNeeded && dirtyTiles == {}
      ensures IsReindexed(GridOf(), DisplayMargins, dtx, dty, old(drawnTiles[..]), drawnTiles[..])
      ensures depthBuffer[..] == (if dty != 0 then ShiftedDepths(old(depthBuffer[..]), dty, maxDepth) else old(depthBuffer[..]))
    {
      ShiftView(dtx, dty);
      UpdateBounds();
    }

    /** The small move without the bounds update. */
    method ShiftView(dtx: int, dty: int)
      requires Valid()
      modifies this, drawnTiles, depthBuffer
      ensures Valid()
      ensures start == old(start) && GridOf() == old(GridOf())
      ensures facing == old(facing) && zoom == old(zoom)
      ensures menuSelectIndex == old(menuSelectIndex) && buttonSelected == old(buttonSelected)
      ensures minimumRenderZ == -maxRows - (WorldHeight - start.y) && maximumRenderZ == maxRows + start.y
      ensures currentRenderZ == minimumRenderZ && !finishedRendering && forwardRenderNeeded && dirtyTiles == {}
      ensures IsReindexed(GridOf(), DisplayMargins, dtx, dty, old(drawnTiles[..]), drawnTiles[..])
      ensures depthBuffer[..] == (if dty != 0 then ShiftedDepths(old(depthBuffer[..]), dty, maxDepth) else old(depthBuffer[..]))
    {
      var moved := Reindex(GridOf(), DisplayMargins, dtx, dty, drawnTiles);
      drawnTiles := moved;
      if dty != 0 {
        ShiftDepths(depthBuffer, dty, maxDepth);
      }
      ResetView(Translation, maxCols, maxRows);
    }

    /**
     * renderSlice: every tile not yet drawn is drawn at `depth` and marked
     * drawn when it leaves no void behind; when the start block is outside
     * the world's height every row is passed over.
     */
    method RenderSlice(depth: int, isAir: IntVector3 -> bool, moreDepth: (int, int, int) -> bool)
      requires Shaped()
      modifies drawnTiles
      ensures 0 <= start.y <= WorldHeight ==>
        SliceApplied(GridOf(), old(drawnTiles[..]), drawnTiles[..], SliceVoid(ViewOf(), depth, isAir, moreDepth))
      ensures !(0 <= start.y <= WorldHeight) ==> drawnTiles[..] == old(drawnTiles[..])
      ensures forall i | 0 <= i < drawnTiles.Length :: old(drawnTiles[i]) ==> drawnTiles[i]
    {
      var startY := start.y;
      RenderGrid.RenderSlice(GridOf(), drawnTiles, SliceVoid(ViewOf(), depth, isAir, moreDepth), ty => RowSkipped(startY, ty));
    }

    /**
     * The dirty-tile part of onTick: each dirty tile is redrawn, and when a
     * hole remains behind it its neighbourhood is scheduled again. The dirty
     * set is emptied; nothing but those neighbourhoods is marked not drawn.
     */
    method ProcessDirtyTiles(isAir: IntVector3 -> bool, moreDepth: (int, int, int) -> bool)
      requires Valid()
      modifies this`dirtyTiles, this`currentRenderZ, this`forwardRenderNeeded, drawnTiles
      ensures Valid()
      ensures dirtyTiles == {}
      ensures forall t | t in old(dirtyTiles) && DrawBlockTile(ViewOf(), t.x, t.y, t.z, false, isAir, moreDepth) ::
        Rescheduled(GridOf(), drawnTiles[..], currentRenderZ, forwardRenderNeeded, t)
      ensures Redrawn(GridOf(), old(drawnTiles[..]), drawnTiles[..], old(currentRenderZ), currentRenderZ,
                      old(forwardRenderNeeded), forwardRenderNeeded, old(dirtyTiles), HoleAfterRedraw(ViewOf(), isAir, moreDepth))
      ensures forall i | 0 <= i < drawnTiles.Length :: drawnTiles[i] ==> old(drawnTiles[i])
      ensures currentRenderZ <= old(currentRenderZ) && (old(forwardRenderNeeded) ==> forwardRenderNeeded)
    {
      RedrawTiles(HoleAfterRedraw(ViewOf(), isAir, moreDepth));
    }

    /** The loop over the dirty tiles, given whether redrawing a tile leaves a hole. */
    method RedrawTiles(hole: IntVector3 -> bool)
      requires Valid()
      modifies this`dirtyTiles, this`currentRenderZ, this`forwardRenderNeeded, drawnTiles
      ensures Valid()
      ensures dirtyTiles == {}
      ensures Redrawn(GridOf(), old(drawnTiles[..]), drawnTiles[..], old(currentRenderZ), currentRenderZ,
                      old(forwardRenderNeeded), forwardRenderNeeded, old(dirtyTiles), hole)
      ensures forall i | 0 <= i < drawnTiles.Length :: drawnTiles[i] ==> old(drawnTiles[i])
      ensures currentRenderZ <= old(currentRenderZ) && (old(forwardRenderNeeded) ==> forwardRenderNeeded)
    {
      var remaining := dirtyTiles;
      ghost var all, g, before, c0, f0 := dirtyTiles, GridOf(), drawnTiles[..], currentRenderZ, forwardRenderNeeded;
      RedrawnNone(g, before, c0, f0, hole);
      assert all - remaining == {};
      while remaining != {}
        invariant Valid() && GridOf() == g && remaining <= all
        invariant Redrawn(g, before, drawnTiles[..], c0, currentRenderZ, f0, forwardRenderNeeded, all - remaining, hole)
        decreases |remaining|
      {
        var tile :| tile in remaining;
        RedrawNext(tile, hole, g, before, c0, f0, all - remaining);
        MoveToDone(all, remaining, all - remaining, tile);
        RedrawnSame(g, before, drawnTiles[..], c0, currentRenderZ, f0, forwardRenderNeeded, (all - remaining) + {tile}, all - (remaining - {tile}), hole);
        remaining := remaining - {tile};
      }
      assert all - remaining == all;
      RedrawnOnlyClears(g, before, drawnTiles[..], c0, currentRenderZ, f0, forwardRenderNeeded, all, hole);
      dirtyTiles := {};
    }

    /** The loop body and its place in the loop: the effect of the tiles handled so far, extended by this one. */
    method RedrawNext(tile: IntVector3, hole: IntVector3 -> bool, ghost g: Grid, ghost before: seq<bool>, ghost c0: int, ghost f0: bool,
                      ghost done: set<IntVector3>)
      requires Valid() && GridOf() == g
      requires Redrawn(g, before, drawnTiles[..], c0, currentRenderZ, f0, forwardRenderNeeded, done, hole)
      modifies this`currentRenderZ, this`forwardRenderNeeded, drawnTiles
      ensures Valid() && GridOf() == g
      ensures Redrawn(g, before, drawnTiles[..], c0, currentRenderZ, f0, forwardRenderNeeded, done + {tile}, hole)
    {
      ghost var mid, c1, f1 := drawnTiles[..], currentRenderZ, forwardRenderNeeded;
      RedrawTile(tile, hole);
      RedrawStep(GridOf(), before, mid, drawnTiles[..], c0, c1, currentRenderZ, f0, f1, forwardRenderNeeded, done, hole, tile);
    }

    /** One pass of that loop: a dirty tile that is a hole invalidates the tiles around it. */
    method RedrawTile(tile: IntVector3, hole: IntVector3 -> bool)
      requires Valid()
      modifies this`currentRenderZ, this`forwardRenderNeeded, drawnTiles
      ensures Valid()
      ensures hole(tile) ==> Invalidated(GridOf(), old(drawnTiles[..]), drawnTiles[..], old(currentRenderZ), currentRenderZ,
                                         old(forwardRenderNeeded), forwardRenderNeeded, tile)
      ensures !hole(tile) ==> drawnTiles[..] == old(drawnTiles[..]) &&
                              currentRenderZ == old(currentRenderZ) && forwardRenderNeeded == old(forwardRenderNeeded)
      ensures forall i | 0 <= i < drawnTiles.Length :: drawnTiles[i] ==> old(drawnTiles[i])
      ensures currentRenderZ <= old(currentRenderZ) && (old(forwardRenderNeeded) ==> forwardRenderNeeded)
    {
      if hole(tile) {
        InvalidateAround(tile);
      }
    }

    /** The two loops of onTick that invalidate the 3 by 5 tiles around a hole. */
    method InvalidateAround(t: IntVector3)
      requires Valid()
      modifies this`currentRenderZ, this`forwardRenderNeeded, drawnTiles
      ensures Valid()
      ensures Invalidated(GridOf(), old(drawnTiles[..]), drawnTiles[..], old(currentRenderZ), currentRenderZ,
                          old(forwardRenderNeeded), forwardRenderNeeded, t)
      ensures Rescheduled(GridOf(), drawnTiles[..], currentRenderZ, forwardRenderNeeded, t)
      ensures forall i | 0 <= i < drawnTiles.Length :: drawnTiles[i] ==> old(drawnTiles[i])
      ensures currentRenderZ <= old(currentRenderZ) && (old(forwardRenderNeeded) ==> forwardRenderNeeded)
    {
      ghost var g, before, c0, f0 := GridOf(), drawnTiles[..], currentRenderZ, forwardRenderNeeded;
      var dtx := -1;
      while dtx <= 1
        invariant -1 <= dtx <= 2 && Valid() && GridOf() == g
        invariant forall x, y | InGrid(g, x, y) ::
          drawnTiles[CellIndex(g, x, y)] == (!(t.x - 1 <= x < t.x + dtx && t.y - 2 <= y <= t.y + 2) && before[CellIndex(g, x, y)])
        invariant ReachedColumns(g, t, dtx) ==> forwardRenderNeeded && currentRenderZ == Lowered(c0, t.z)
        invariant !ReachedColumns(g, t, dtx) ==> forwardRenderNeeded == f0 && currentRenderZ == c0
        invariant forall i | 0 <= i < drawnTiles.Length :: drawnTiles[i] ==> before[i]
      {
        InvalidateColumn(t, dtx);
        dtx := dtx + 1;
      }
    }

    /** Some tile of the columns t.x - 1 .. t.x + dtx - 1 of the neighbourhood of `t` lies on the grid. */
    ghost predicate ReachedColumns(g: Grid, t: IntVector3, dtx: int) {
      -1 < dtx && g.minCols <= t.x + dtx - 1 && t.x - 1 <= g.maxCols && g.minRows <= t.y + 2 && t.y - 2 <= g.maxRows
    }

    /** Some tile of rows t.y - 2 .. t.y + dty - 1 of column x lies on the grid. */
    ghost predicate ReachedRows(g: Grid, t: IntVector3, x: int, dty: int) {
      -2 < dty && g.minCols <= x <= g.maxCols && g.minRows <= t.y + dty - 1 && t.y - 2 <= g.maxRows
    }

    /**
     * The inner loop: the five tiles of column t.x + dtx around a hole are
     * marked not drawn, and the cursor and the forward flag change as
     * invalidateTile does when one of them lies on the grid.
     */
    method InvalidateColumn(t: IntVector3, dtx: int)
      requires Valid()
      modifies this`currentRenderZ, this`forwardRenderNeeded, drawnTiles
      ensures Valid()
      ensures forall x, y | InGrid(GridOf(), x, y) ::
        drawnTiles[CellIndex(GridOf(), x, y)] ==
          (!(x == t.x + dtx && t.y - 2 <= y <= t.y + 2) && old(drawnTiles[..])[CellIndex(GridOf(), x, y)])
      ensures ReachedRows(GridOf(), t, t.x + dtx, 3) ==> forwardRenderNeeded && currentRenderZ == Lowered(old(currentRenderZ), t.z)
      ensures !ReachedRows(GridOf(), t, t.x + dtx, 3) ==>
        forwardRenderNeeded == old(forwardRenderNeeded) && currentRenderZ == old(currentRenderZ)
      ensures forall i | 0 <= i < drawnTiles.Length :: drawnTiles[i] ==> old(drawnTiles[i])
      ensures currentRenderZ <= old(currentRenderZ) && (old(forwardRenderNeeded) ==> forwardRenderNeeded)
    {
      ghost var g, before, c0, f0 := GridOf(), drawnTiles[..], currentRenderZ, forwardRenderNeeded;
      var dty := -2;
      while dty <= 2
        invariant -2 <= dty <= 3 && Valid() && GridOf() == g
        invariant forall x, y | InGrid(g, x, y) ::
          drawnTiles[CellIndex(g, x, y)] == (!(x == t.x + dtx && t.y - 2 <= y < t.y + dty) && before[CellIndex(g, x, y)])
        invariant ReachedRows(g, t, t.x + dtx, dty) ==> forwardRenderNeeded && currentRenderZ == Lowered(c0, t.z)
        invariant !ReachedRows(g, t, t.x + dtx, dty) ==> forwardRenderNeeded == f0 && currentRenderZ == c0
        invariant forall i | 0 <= i < drawnTiles.Length :: drawnTiles[i] ==> before[i]
      {
        ghost var prev := drawnTiles[..];
        var tx, ty := t.x + dtx, t.y + dty;
        InvalidateTile(tx, ty, t.z);
        forall x, y | InGrid(g, x, y) && (x != tx || y != ty)
          ensures drawnTiles[CellIndex(g, x, y)] == prev[CellIndex(g, x, y)]
        {
          if InGrid(g, tx, ty) && CellIndex(g, x, y) == CellIndex(g, tx, ty) {
            CellIndexInjective(g, x, y, tx, ty);
          }
        }
        dty := dty + 1;
      }
    }

    /**
     * The render loop of onTick: while the cursor has not passed the last
     * depth, render the slice at the cursor when a forward render is needed
     * and advance the cursor, at least once and for as long as the time
     * budget allows. Passing the last depth finishes rendering.
     * `withinBudget(k)` says whether time remains after k slices,
     * `sliceHasMoreDepth(z)` is hasMoreDepth after the slice at z.
     */
    method RenderForward(isAir: IntVector3 -> bool, moreDepth: (int, int, int) -> bool,
                         sliceHasMoreDepth: int -> bool, withinBudget: nat -> bool)
      requires Valid()
      modifies this`currentRenderZ, this`forwardRenderNeeded, this`finishedRendering, drawnTiles
      ensures Valid()
      ensures old(currentRenderZ) <= maximumRenderZ ==>
        old(currentRenderZ) < currentRenderZ &&
        (currentRenderZ > maximumRenderZ || !withinBudget(currentRenderZ - old(currentRenderZ))) &&
        forall k | 1 <= k < currentRenderZ - old(currentRenderZ) :: withinBudget(k)
      ensures old(currentRenderZ) > maximumRenderZ ==> currentRenderZ == old(currentRenderZ) && drawnTiles[..] == old(drawnTiles[..])
      ensures finishedRendering == (old(finishedRendering) || currentRenderZ > maximumRenderZ)
      ensures forwardRenderNeeded == RendersAt(old(currentRenderZ), old(forwardRenderNeeded), sliceHasMoreDepth, currentRenderZ)
      ensures 0 <= start.y <= WorldHeight ==>
        Swept(GridOf(), old(drawnTiles[..]), drawnTiles[..], old(currentRenderZ), currentRenderZ,
              old(forwardRenderNeeded), sliceHasMoreDepth, SliceVoids(ViewOf(), isAir, moreDepth))
      ensures !(0 <= start.y <= WorldHeight) ==> drawnTiles[..] == old(drawnTiles[..])
      ensures forall i | 0 <= i < drawnTiles.Length :: old(drawnTiles[i]) ==> drawnTiles[i]
      ensures !old(forwardRenderNeeded) ==> !forwardRenderNeeded && drawnTiles[..] == old(drawnTiles[..])
    {
      ghost var g, before, c0, f0 := GridOf(), drawnTiles[..], currentRenderZ, forwardRenderNeeded;
      ghost var voids := SliceVoids(ViewOf(), isAir, moreDepth);
      SweptNone(g, before, c0, f0, sliceHasMoreDepth, voids);
      if currentRenderZ <= maximumRenderZ {
        var slices: nat := 0;
        var more := true;
        while more
          invariant Shaped() && GridOf() == g && voids == SliceVoids(ViewOf(), isAir, moreDepth)
          invariant finishedRendering == old(finishedRendering)
          invariant c0 <= currentRenderZ <= maximumRenderZ + 1 && slices == currentRenderZ - c0
          invariant more ==> currentRenderZ <= maximumRenderZ && (slices == 0 || withinBudget(slices))
          invariant !more ==> c0 < currentRenderZ && (currentRenderZ > maximumRenderZ || !withinBudget(slices))
          invariant forall k | 1 <= k < slices :: withinBudget(k)
          invariant forwardRenderNeeded == RendersAt(c0, f0, sliceHasMoreDepth, currentRenderZ)
          invariant 0 <= start.y <= WorldHeight ==>
            Swept(g, before, drawnTiles[..], c0, currentRenderZ, f0, sliceHasMoreDepth, voids)
          invariant !(0 <= start.y <= WorldHeight) ==> drawnTiles[..] == before
          decreases maximumRenderZ + 1 - currentRenderZ
        {
          RenderAtCursor(isAir, moreDepth, sliceHasMoreDepth, g, before, c0, f0, voids);
          currentRenderZ := currentRenderZ + 1;
          slices := slices + 1;
          more := currentRenderZ <= maximumRenderZ && withinBudget(slices);
        }
        if currentRenderZ > maximumRenderZ {
          finishedRendering := true;
        }
      }
      if 0 <= start.y <= WorldHeight {
        SweptOnlyAdds(g, before, drawnTiles[..], c0, currentRenderZ, f0, sliceHasMoreDepth, voids);
      }
    }

    /**
     * One turn of the render loop before the cursor advances: the slice at
     * the cursor is drawn when a forward render is needed, and the need
     * continues when that slice reports more depth.
     */
    method RenderAtCursor(isAir: IntVector3 -> bool, moreDepth: (int, int, int) -> bool, sliceHasMoreDepth: int -> bool,
                          ghost g: Grid, ghost before: seq<bool>, ghost c0: int, ghost f0: bool,
                          ghost voids: int -> ((int, int) -> bool))
      requires Shaped() && GridOf() == g && voids == SliceVoids(ViewOf(), isAir, moreDepth) && c0 <= currentRenderZ
      requires forwardRenderNeeded == RendersAt(c0, f0, sliceHasMoreDepth, currentRenderZ)
      requires 0 <= start.y <= WorldHeight ==> Swept(g, before, drawnTiles[..], c0, currentRenderZ, f0, sliceHasMoreDepth, voids)
      requires !(0 <= start.y <= WorldHeight) ==> drawnTiles[..] == before
      modifies this`forwardRenderNeeded, drawnTiles
      ensures Shaped() && GridOf() == g && voids == SliceVoids(ViewOf(), isAir, moreDepth)
      ensures forwardRenderNeeded == RendersAt(c0, f0, sliceHasMoreDepth, currentRenderZ + 1)
      ensures 0 <= start.y <= WorldHeight ==> Swept(g, before, drawnTiles[..], c0, currentRenderZ + 1, f0, sliceHasMoreDepth, voids)
      ensures !(0 <= start.y <= WorldHeight) ==> drawnTiles[..] == before
    {
      ghost var mid := drawnTiles[..];
      if forwardRenderNeeded {
        RenderSlice(currentRenderZ, isAir, moreDepth);
        forwardRenderNeeded := sliceHasMoreDepth(currentRenderZ);
      }
      if 0 <= start.y <= WorldHeight {
        SweptStep(g, before, mid, drawnTiles[..], c0, currentRenderZ, f0, sliceHasMoreDepth, voids);
      } else {
        RendersNext(c0, f0, sliceHasMoreDepth, currentRenderZ);
      }
    }

    /** onTick: the dirty tiles first, then the render loop. */
    method OnTick(isAir: IntVector3 -> bool, moreDepth: (int, int, int) -> bool,
                  sliceHasMoreDepth: int -> bool, withinBudget: nat -> bool)
      requires Valid()
      modifies this`dirtyTiles, this`currentRenderZ, this`forwardRenderNeeded, this`finishedRendering, drawnTiles
      ensures Valid()
      ensures dirtyTiles == {}
      ensures currentRenderZ > maximumRenderZ ==> finishedRendering
    {
      ProcessDirtyTiles(isAir, moreDepth);
      RenderForward(isAir, moreDepth, sliceHasMoreDepth, withinBudget);
    }

    /**
     * setMenuIndex: the index wraps into the buttons; the selection changes,
     * to that button alone, only when the index differs from the current one.
     */
    method SetMenuIndex(index: int)
      requires Valid()
      modifies this`menuSelectIndex, this`buttonSelected
      ensures Valid()
      ensures menuSelectIndex == index % MenuButtonCount
      ensures old(menuSelectIndex) != menuSelectIndex ==> buttonSelected == Selection(MenuButtonCount, menuSelectIndex)
      ensures old(menuSelectIndex) == menuSelectIndex ==> buttonSelected == old(buttonSelected)
    {
      var i := WrapIndex(index, MenuButtonCount);
      if menuSelectIndex != i {
        menuSelectIndex := i;
        buttonSelected := Selection(MenuButtonCount, i);
      }
    }

    /**
     * zoom: the zoom level `n` steps from the current one, clamped to the
     * available levels, then a render from scratch with the new level's
     * column and row counts.
     */
    method Zoom(n: int, nrColumns: nat, nrRows: nat)
      requires Valid()
      modifies this, drawnTiles, depthBuffer, blockBounds
      ensures Valid() && BoundsCurrent()
      ensures exists i | 0 <= i < |Values| && Values[i] == old(zoom) :: zoom == Values[Clamp(i + n, 0, |Values| - 1)]
      ensures start == old(start) && facing == old(facing)
      ensures menuSelectIndex == old(menuSelectIndex) && buttonSelected == old(buttonSelected)
      ensures GridOf() == Centred(nrColumns, nrRows)
      ensures minimumRenderZ == -(nrRows as int) - (WorldHeight - start.y) && maximumRenderZ == nrRows + start.y
      ensures currentRenderZ == minimumRenderZ && !finishedRendering && forwardRenderNeeded && dirtyTiles == {}
      ensures forall i | 0 <= i < drawnTiles.Length :: !drawnTiles[i]
      ensures forall i | 0 <= i < depthBuffer.Length :: depthBuffer[i] == maxDepth
    {
      zoom := StepZoom(zoom, n);
      Render(Initialize, nrColumns, nrRows);
    }
  }

  function Abs(v: int): (r: nat)
    ensures r == v || r == -v
  {
    if v < 0 then -v else v
  }
}
