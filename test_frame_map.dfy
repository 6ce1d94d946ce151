/**
 * TestFrameMap, the older renderer: the same drawn-tiles bookkeeping as
 * MaplandsDisplay, with the depth as the second tile coordinate, grid rows
 * as the third, three more rows below the view, no dirty tiles, and a
 * cursor that sweeps a fixed range of depths around the start block.
 */
module TestFrame {
  import opened Wrappers
  import opened MapUtil
  import opened ZoomLevels
  import opened RenderGrid
  import opened ViewControls
  import Display

  /** The depths visible behind and ahead of the start block. */
  const ViewRange: int := 256 * 3

  /** The four menu buttons: zoom in, zoom out, rotate left, rotate right. */
  const MenuButtonCount: nat := 4

  /** moveTiles shortens the surviving region by one column and five rows either way. */
  const FrameMargins: Margins := Margins(1, 5, 5)

  /** What drawing one block needs to know about the view, including the tile offsets of getBlockAtTile. */
  datatype FrameView = FrameView(facing: BlockFace, start: IntVector3, zoom: ZoomLevel,
                                 canvasWidth: int, canvasHeight: int, tileOffsetX: int, tileOffsetZ: int)

  /** getBlockAtTile: the block a tile shows, relative to the start block, after the tile offsets. */
  function BlockAtTile(view: FrameView, tx: int, ty: int, tz: int): (r: Option<IntVector3>)
    ensures r.Some? <==> IsTile(tx + view.tileOffsetX, ty, tz + view.tileOffsetZ) && IsDiagonal(view.facing)
  {
    ScreenTileToBlock(view.facing, IntVector3(tx + view.tileOffsetX, ty, tz + view.tileOffsetZ))
  }

  /**
   * drawBlock(x, y, z): whether void remains behind the tile of column `x`,
   * depth `y` and row `z`. Nothing is drawn for a position without a block,
   * a block outside the world's height or an air block, whether or not it
   * is a redraw; any other sprite is drawn at the pixel of getDrawX and
   * getDrawZ (whose closed forms DrawX and DrawZ state) offset to the
   * middle of the canvas, and `moreDepth` says whether void remains under
   * it there.
   */
  function DrawBlock(view: FrameView, x: int, y: int, z: int, isAir: IntVector3 -> bool, moreDepth: (int, int) -> bool): (r: bool)
    ensures BlockAtTile(view, x, y, z).None? ==> r
    ensures BlockAtTile(view, x, y, z).Some? ==>
      var b := Add(view.start, BlockAtTile(view, x, y, z).value);
      (r <==> !(0 <= b.y < Display.WorldHeight) || isAir(b) ||
              moreDepth(DrawX(view.zoom, x) + view.canvasWidth / 2, DrawZ(view.zoom, z) + view.canvasHeight / 2))
  {
    match BlockAtTile(view, x, y, z)
    case None => true
    case Some(d) =>
      var b := Add(view.start, d);
      if 0 <= b.y < Display.WorldHeight && !isAir(b) then
        moreDepth(DrawX(view.zoom, x) + view.canvasWidth / 2, DrawZ(view.zoom, z) + view.canvasHeight / 2)
      else
        true
  }

  /** What one slice at depth `y` reports for the tile of column dx and row dz. */
  function SliceVoid(view: FrameView, y: int, isAir: IntVector3 -> bool, moreDepth: (int, int) -> bool): (int, int) -> bool {
    (dx, dz) => DrawBlock(view, dx, y, dz, isAir, moreDepth)
  }

  /** What the slice at each depth reports, given the void test `sliceMoreDepth(y)` of the canvas at depth y. */
  function SliceVoids(view: FrameView, isAir: IntVector3 -> bool, sliceMoreDepth: int -> ((int, int) -> bool)): int -> ((int, int) -> bool) {
    y => SliceVoid(view, y, isAir, sliceMoreDepth(y))
  }

  /** The grid of `c` columns either side of the start tile, `r` rows above it and r + 3 below. */
  function FrameGrid(c: int, r: int): Grid {
    Grid(-c, c, -r, r + 3)
  }

  class TestFrameMap {
    /** The start block (the properties px, py, pz), the facing and the zoom of the view. */
    var start: IntVector3
    var facing: BlockFace
    var zoom: ZoomLevel
    var minCols: int
    var maxCols: int
    var minRows: int
    var maxRows: int
    var currentRenderY: int
    var forwardRenderNeeded: bool
    var drawnTiles: array<bool>
    var menuSelectIndex: int
    var buttonSelected: seq<bool>
    /** The tile offsets of getBlockAtTile; nothing ever changes them from 0. */
    const tileOffsetX: int
    const tileOffsetZ: int
    /** The canvas depth buffer, the depth of a pixel nothing was drawn at (MapCanvas.MAX_DEPTH) and the canvas size in pixels. */
    const depthBuffer: array<int>
    const maxDepth: int
    const canvasWidth: nat
    const canvasHeight: nat

    function GridOf(): Grid
      reads this
    {
      Grid(minCols, maxCols, minRows, maxRows)
    }

    function ViewOf(): FrameView
      reads this
    {
      FrameView(facing, start, zoom, canvasWidth, canvasHeight, tileOffsetX, tileOffsetZ)
    }

    /**
     * The grid is centred on the start tile horizontally and reaches three
     * rows further down, the buffer has one flag per tile, and the cursor
     * never passes one beyond the last depth.
     */
    ghost predicate Valid()
      reads this
    {
      Shaped() && currentRenderY <= ViewRange + 1
    }

    ghost predicate Shaped()
      reads this
    {
      0 <= maxCols && minCols == -maxCols && minRows <= 0 && maxRows == -minRows + 3 &&
      drawnTiles.Length == Size(GridOf()) &&
      0 <= menuSelectIndex < MenuButtonCount && |buttonSelected| == MenuButtonCount
    }

    /** onAttached: the view as stored in the map's properties and a first render from scratch. */
    constructor (start: IntVector3, facing: BlockFace, zoom: ZoomLevel, depthBuffer: array<int>, maxDepth: int,
                 canvasWidth: nat, canvasHeight: nat, nrColumns: nat, nrRows: nat)
      modifies depthBuffer
      ensures Valid()
      ensures this.start == start && this.facing == facing && this.zoom == zoom
      ensures this.depthBuffer == depthBuffer && this.maxDepth == maxDepth
      ensures this.canvasWidth == canvasWidth && this.canvasHeight == canvasHeight
      ensures forall i | 0 <= i < depthBuffer.Length :: depthBuffer[i] == maxDepth
      ensures tileOffsetX == 0 && tileOffsetZ == 0
      ensures GridOf() == FrameGrid(nrColumns, nrRows)
      ensures currentRenderY == -ViewRange && forwardRenderNeeded
      ensures menuSelectIndex == 0 && buttonSelected == Selection(MenuButtonCount, -1)
      ensures forall i | 0 <= i < drawnTiles.Length :: !drawnTiles[i]
      ensures fresh(drawnTiles)
    {
      this.start := start;
      this.facing := facing;
      this.zoom := zoom;
      this.depthBuffer := depthBuffer;
      this.maxDepth := maxDepth;
      this.canvasWidth := canvasWidth;
      this.canvasHeight := canvasHeight;
      tileOffsetX, tileOffsetZ := 0, 0;
      drawnTiles := new bool[4];
      menuSelectIndex := 0;
      buttonSelected := Selection(MenuButtonCount, -1);
      minCols, maxCols, minRows, maxRows := 0, 0, 0, 3;
      currentRenderY := 0;
      new;
      Render(true, nrColumns, nrRows);
    }

    /**
     * render(clear): the cursor back at the first visible depth, the grid
     * of nrColumns columns either side and nrRows rows above and
     * nrRows + 3 below the start tile; only when clearing is the depth
     * buffer cleared and every tile to be drawn again.
     */
    method Render(clear: bool, nrColumns: nat, nrRows: nat)
      requires Shaped()
      requires !clear ==> nrColumns == maxCols && nrRows == -minRows
      modifies this`currentRenderY, this`forwardRenderNeeded, this`minCols, this`maxCols,
               this`minRows, this`maxRows, this`drawnTiles, drawnTiles, depthBuffer
      ensures Valid()
      ensures currentRenderY == -ViewRange && forwardRenderNeeded
      ensures GridOf() == FrameGrid(nrColumns, nrRows)
      ensures clear ==> (forall i | 0 <= i < drawnTiles.Length :: !drawnTiles[i]) &&
                        (drawnTiles == old(drawnTiles) || fresh(drawnTiles))
      ensures !clear ==> drawnTiles == old(drawnTiles) && drawnTiles[..] == old(drawnTiles[..])
      ensures clear ==> forall i | 0 <= i < depthBuffer.Length :: depthBuffer[i] == maxDepth
      ensures !clear ==> depthBuffer[..] == old(depthBuffer[..])
    {
      if clear {
        ClearDepths(depthBuffer, maxDepth);
      }
      currentRenderY := -ViewRange;
      forwardRenderNeeded := true;
      minCols, maxCols := -(nrColumns as int), nrColumns;
      minRows, maxRows := -(nrRows as int), nrRows + 3;
      if clear {
        ResetTiles();
      }
    }

    /** A buffer of the grid's size with every tile not drawn: a new one when the size changed. */
    method ResetTiles()
      requires WellFormed(GridOf())
      modifies this`drawnTiles, drawnTiles
      ensures drawnTiles.Length == Size(GridOf())
      ensures forall i | 0 <= i < drawnTiles.Length :: !drawnTiles[i]
      ensures drawnTiles == old(drawnTiles) || fresh(drawnTiles)
    {
      var len := (maxRows - minRows + 1) * (maxCols - minCols + 1);
      if len != drawnTiles.Length {
        drawnTiles := new bool[len](_ => false);
      } else {
        ResetDrawn(drawnTiles);
      }
    }

    /**
     * moveTiles: the view moves by `dtx` columns and `dtz` rows. The
     * drawn-tiles buffer moves along with the canvas, the stored depths are
     * lowered by `dtz` when the view moves vertically, the start block moves
     * by `blockDx`, `blockDz` (the offsets of the block face moved towards),
     * and the missing areas are rendered.
     */
    method MoveTiles(dtx: int, dtz: int, blockDx: int, blockDz: int)
      requires Valid()
      modifies this, drawnTiles, depthBuffer
      ensures Valid()
      ensures start == IntVector3(old(start).x + blockDx, old(start).y, old(start).z + blockDz)
      ensures facing == old(facing) && zoom == old(zoom)
      ensures GridOf() == old(GridOf())
      ensures currentRenderY == -ViewRange && forwardRenderNeeded
      ensures IsReindexed(GridOf(), FrameMargins, dtx, dtz, old(drawnTiles[..]), drawnTiles[..])
      ensures depthBuffer[..] == (if dtz != 0 then ShiftedDepths(old(depthBuffer[..]), dtz, maxDepth) else old(depthBuffer[..]))
      ensures menuSelectIndex == old(menuSelectIndex) && buttonSelected == old(buttonSelected)
    {
      var moved := Reindex(GridOf(), FrameMargins, dtx, dtz, drawnTiles);
      drawnTiles := moved;
      if dtz != 0 {
        ShiftDepths(depthBuffer, dtz, maxDepth);
      }
      start := IntVector3(start.x + blockDx, start.y, start.z + blockDz);
      Render(false, maxCols, -minRows);
    }

    /**
     * renderSlice(y): every tile not yet drawn is drawn at depth `y` and
     * marked drawn when it leaves no void behind; every row is drawn.
     */
    method RenderSlice(y: int, isAir: IntVector3 -> bool, moreDepth: (int, int) -> bool)
      requires Shaped()
      modifies drawnTiles
      ensures SliceApplied(GridOf(), old(drawnTiles[..]), drawnTiles[..], SliceVoid(ViewOf(), y, isAir, moreDepth))
      ensures forall i | 0 <= i < drawnTiles.Length :: old(drawnTiles[i]) ==> drawnTiles[i]
    {
      RenderGrid.RenderSlice(GridOf(), drawnTiles, SliceVoid(ViewOf(), y, isAir, moreDepth), _ => false);
    }

    /**
     * The render loop of onTick: while the cursor has not passed the last
     * visible depth, render the slice at the cursor when a forward render is
     * needed and advance the cursor, at least once and for as long as the
     * 50 ms budget allows. `withinBudget(k)` says whether time remains after
     * k slices, `sliceHasMoreDepth(y)` is hasMoreDepth after the slice at y.
     */
    method OnTick(isAir: IntVector3 -> bool, sliceMoreDepth: int -> ((int, int) -> bool),
                  sliceHasMoreDepth: int -> bool, withinBudget: nat -> bool)
      requires Valid()
      modifies this`currentRenderY, this`forwardRenderNeeded, drawnTiles
      ensures Valid()
      ensures old(currentRenderY) <= ViewRange ==>
        old(currentRenderY) < currentRenderY &&
        (currentRenderY > ViewRange || !withinBudget(currentRenderY - old(currentRenderY))) &&
        forall k | 1 <= k < currentRenderY - old(currentRenderY) :: withinBudget(k)
      ensures old(currentRenderY) > ViewRange ==> currentRenderY == old(currentRenderY) && drawnTiles[..] == old(drawnTiles[..])
      ensures forwardRenderNeeded == RendersAt(old(currentRenderY), old(forwardRenderNeeded), sliceHasMoreDepth, currentRenderY)
      ensures Swept(GridOf(), old(drawnTiles[..]), drawnTiles[..], old(currentRenderY), currentRenderY,
                    old(forwardRenderNeeded), sliceHasMoreDepth, SliceVoids(ViewOf(), isAir, sliceMoreDepth))
      ensures forall i | 0 <= i < drawnTiles.Length :: old(drawnTiles[i]) ==> drawnTiles[i]
      ensures !old(forwardRenderNeeded) ==> !forwardRenderNeeded && drawnTiles[..] == old(drawnTiles[..])
    {
      ghost var before, c0, f0 := drawnTiles[..], currentRenderY, forwardRenderNeeded;
      ghost var voids := SliceVoids(ViewOf(), isAir, sliceMoreDepth);
      SweptNone(GridOf(), before, c0, f0, sliceHasMoreDepth, voids);
      if currentRenderY <= ViewRange {
        var slices: nat := 0;
        var more := true;
        while more
          invariant Shaped()
          invariant c0 <= currentRenderY <= ViewRange + 1 && slices == currentRenderY - c0
          invariant more ==> currentRenderY <= ViewRange && (slices == 0 || withinBudget(slices))
          invariant !more ==> c0 < currentRenderY && (currentRenderY > ViewRange || !withinBudget(slices))
          invariant forall k | 1 <= k < slices :: withinBudget(k)
          invariant forwardRenderNeeded == RendersAt(c0, f0, sliceHasMoreDepth, currentRenderY)
          invariant Swept(GridOf(), before, drawnTiles[..], c0, currentRenderY, f0, sliceHasMoreDepth, voids)
          invariant forall i | 0 <= i < drawnTiles.Length :: before[i] ==> drawnTiles[i]
          invariant !f0 ==> drawnTiles[..] == before
          decreases ViewRange + 1 - currentRenderY
        {
          ghost var mid := drawnTiles[..];
          if forwardRenderNeeded {
            RenderSlice(currentRenderY, isAir, sliceMoreDepth(currentRenderY));
            forwardRenderNeeded := sliceHasMoreDepth(currentRenderY);
          }
          SweptStep(GridOf(), before, mid, drawnTiles[..], c0, currentRenderY, f0, sliceHasMoreDepth, voids);
          currentRenderY := currentRenderY + 1;
          slices := slices + 1;
          more := currentRenderY <= ViewRange && withinBudget(slices);
        }
      }
    }

    /**
     * setMenuIndex: the index wraps into the buttons; the selection changes,
     * to that button alone, only when the index differs from the current one.
     */
    method SetMenuIndex(index: int)
      requires Valid()
      modifies this`menuSelectIndex, this`buttonSelected
      ensures Valid()
      ensures menuSelectIndex == index % MenuButtonCount
      ensures old(menuSelectIndex) != menuSelectIndex ==> buttonSelected == Selection(MenuButtonCount, menuSelectIndex)
      ensures old(menuSelectIndex) == menuSelectIndex ==> buttonSelected == old(buttonSelected)
    {
      var i := WrapIndex(index, MenuButtonCount);
      if menuSelectIndex != i {
        menuSelectIndex := i;
        buttonSelected := Selection(MenuButtonCount, i);
      }
    }

    /** zoom: the zoom level `n` steps from the current one, clamped, then a render from scratch that also clears the depth buffer. */
    method Zoom(n: int, nrColumns: nat, nrRows: nat)
      requires Valid()
      modifies this, drawnTiles, depthBuffer
      ensures Valid()
      ensures exists i | 0 <= i < |Values| && Values[i] == old(zoom) :: zoom == Values[Clamp(i + n, 0, |Values| - 1)]
      ensures start == old(start) && facing == old(facing)
      ensures menuSelectIndex == old(menuSelectIndex) && buttonSelected == old(buttonSelected)
      ensures GridOf() == FrameGrid(nrColumns, nrRows)
      ensures currentRenderY == -ViewRange && forwardRenderNeeded
      ensures forall i | 0 <= i < drawnTiles.Length :: !drawnTiles[i]
      ensures forall i | 0 <= i < depthBuffer.Length :: depthBuffer[i] == maxDepth
    {
      zoom := StepZoom(zoom, n);
      Render(true, nrColumns, nrRows);
    }
  }
}
