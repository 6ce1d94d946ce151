# Maplands render core in Dafny

Maplands draws an isometric view of the world onto in-game maps. The model covers its core:

- **geometry:** which screen tile draws which world block;
- **tile set:** the linked tile set that keeps three depth-ordered lists of tiles;
- **block bounds:** the box of blocks a view can show;
- **render bookkeeping:** how the map display and the test frame map keep a drawn-tiles buffer, a render cursor sweeping the depth range, dirty tiles and a translated view;
- **chunk cache:** the chunks a display keeps loaded;
- **sprite caches;**
- **background colour:** how the plugin decodes the configured background colour.

The modules follow the Java files:

| module | file | what it models |
|---|---|---|
| `MapUtil` | `map_util.dfy` | `MapUtil.isTile` and `MapUtil.screenTileToBlock` |
| `Tile` | `tile.dfy` | `Linked2DTile`: its depth class and `toBlock` |
| `ZoomLevels` | `zoom_level.dfy` | `ZoomLevel`: sprite size, `getDrawX`, `getDrawZ` |
| `TileLinks` | `tile_links.dfy` | the linked-list invariant of `Linked2DTileSet`, as pure predicates on the link arrays, with the lemmas that `set`, `clear`, `setAll` and `clearAll` preserve it |
| `TileSet` | `tile_set.dfy` | the `Linked2DTileSet` class and its `InverseIterator` |
| `BlockBounds` | `block_bounds.dfy` | `MapBlockBounds` |
| `RenderGrid` | `render_grid.dfy` | the drawn-tiles buffer shared by both maps: row-major layout, re-indexing after a move, the depth-buffer shift, one render slice |
| `ViewControls` | `view_controls.dfy` | menu index wrap-around and zoom stepping |
| `Display` | `display.dfy` | `MaplandsDisplay`'s rendering state |
| `TestFrame` | `test_frame_map.dfy` | `TestFrameMap`'s rendering state |
| `DisplayChunks` | `display_chunks.dfy` | `MaplandsDisplayChunks` |
| `BlockSprites` | `block_sprites.dfy` | `IsometricBlockSprites` and its registry |
| `Config` | `config.dfy` | `maxRenderTime` and the background colour of `Maplands.enable` |

`Wrappers` and `RowMajor` are small support modules.

The model has these shapes:

- **Tile set:** `Linked2DTileSet` is modelled as an arena. Slots `0..n-1` are the tiles in row-major order. Positions `n+2d` and `n+2d+1` are the head and tail sentinels of list `d`, and `-1` is `null`. The `next` and `prev` arrays hold the links. Ghost fields `chains` (the three lists) and `members` (the set tiles) describe what the links mean. `Valid()` ties the two together.
- **Renderers:** the two renderers are classes whose fields are the Java fields. The canvas, the world, the chunk loader and the clock appear as function parameters, never as state:
  - `isAir`: whether a world block is air;
  - `moreDepth`: whether a sprite leaves void pixels behind a tile, given the draw depth the canvas is set to;
  - `sliceHasMoreDepth`: the canvas's `hasMoreDepth()`;
  - `withinBudget`: whether `maxRenderTime` still allows another slice;
  - `isDone`: a chunk's asynchronous load.
- **Pure code:** MapUtil, ZoomLevel and the colour decoding are pure functions with lemmas.

Where the Java documentation and the code disagree, the model follows the code:

- **`Linked2DTileSet(minX, maxX, minY, maxY)` starts empty.** Its doc comment says "Initially all tiles are set", but the constructor links nothing, and the code comment at `util/Linked2DTileSet.java:43-44` says so. `TileSet.Linked2DTileSet.constructor` ensures `members == {}`.
- **`ZoomLevel.getDrawZ` steps by the sprite width.** Its comment speaks of "full height steps", but the code multiplies by `width`. `ZoomLevels.DrawZ` uses the width.
- **`getValidTiles` holds the tiles drawn at a depth for half of the depths only.** Its doc comment says the list holds the tiles drawn at the given depth. The list is that of depth class `floorMod(depth, 3)`, and the depth class is the depth in 0..2 at which `isTile` holds, as `TestLinked2DTileSet.java:62-82` checks. Tiles repeat every 6 depths, not every 3. So the list holds exactly the tiles drawn at `depth` when `floorMod(depth, 6)` is 0, 1 or 2, and no tile drawn at `depth` otherwise (`Tile.DepthClasses`, `Tile.DepthFiveExample`).
- **`isTile` uses the code's formula.** The validity test is `floorMod(3·tx + 2·ty − tz, 6) == 4`, exactly as `MapUtil.java:18` writes it.

## Model

| member | source | states |
|---|---|---|
| MapUtil.FloorDiv | src/main/java/com/bergerkiller/bukkit/maplands/MapUtil.java:34-36 | Java's `Math.floorDiv` for a positive divisor: the quotient rounded towards minus infinity |
| MapUtil.FloorMod | src/main/java/com/bergerkiller/bukkit/maplands/MapUtil.java:18 | Java's `floorMod` for a positive divisor: a remainder in `[0, b)` that completes the floor division |
| MapUtil.TileDepthResidue | src/main/java/com/bergerkiller/bukkit/maplands/MapUtil.java:17-19 | a position is a tile exactly when its depth is congruent to `3x + 2y + 2` modulo 6 |
| MapUtil.IsTile | src/main/java/com/bergerkiller/bukkit/maplands/MapUtil.java:17-19 | the tile test as the code writes it; its meaning is stated by `TileDepthResidue` and `SplitResidue` |
| MapUtil.SplitResidue | src/main/java/com/bergerkiller/bukkit/maplands/MapUtil.java:17-19 | a position is a tile exactly when column and depth have the same parity and the depth is one less than twice the row, modulo 3 |
| MapUtil.TilesOfOneColumnRowAreSixApart | src/main/java/com/bergerkiller/bukkit/maplands/MapUtil.java:17-19 | two tile depths of the same column and row differ by a multiple of 6 |
| MapUtil.TileTranslations | src/main/java/com/bergerkiller/bukkit/maplands/MapUtil.java:17-19 | the tile pattern repeats every 2 columns, every 3 rows and every 6 depths |
| MapUtil.CenterBlock | src/main/java/com/bergerkiller/bukkit/maplands/MapUtil.java:34-53 | the north-east block of a tile: its height is `-floorDiv(z,3) - floorDiv(y,3)` and `z = x - y - row` |
| MapUtil.CenterBlockTranslations | src/main/java/com/bergerkiller/bukkit/maplands/MapUtil.java:34-53 | moving 2 columns, 3 rows or 6 depths moves the block by (+1,0,+1), (+1,-1,-1) or (-1,-2,+1) |
| MapUtil.CenterBlockInjective | src/main/java/com/bergerkiller/bukkit/maplands/MapUtil.java:34-53 | two tiles with the same block are the same tile |
| MapUtil.TileShape | src/main/java/com/bergerkiller/bukkit/maplands/MapUtil.java:38-43 | for a tile, the depth remainder is fixed by the row and the column parity by the depth: this is what the `dxz_fact` cases rely on |
| MapUtil.Orient | src/main/java/com/bergerkiller/bukkit/maplands/MapUtil.java:55-64 | the four diagonal facings turn the block by 0 to 3 quarter turns about the vertical axis and keep its height; any other facing gives no block |
| MapUtil.FullTurn | src/main/java/com/bergerkiller/bukkit/maplands/MapUtil.java:55-62 | four quarter turns are the identity |
| MapUtil.ScreenTileToBlock | src/main/java/com/bergerkiller/bukkit/maplands/MapUtil.java:28-66 | a block exists exactly for a tile position seen from a diagonal facing, and its height is `-floorDiv(z,3) - floorDiv(y,3)` |
| MapUtil.ScreenTileToBlockInjective | src/main/java/com/bergerkiller/bukkit/maplands/MapUtil.java:28-66 | in any facing, distinct tiles show distinct blocks |
| Tile.DepthModThree | src/main/java/com/bergerkiller/bukkit/maplands/util/Linked2DTile.java:26-28 | the depth class of a tile is the `d` in 0..2 at which it is a tile, and -1 when there is none |
| Tile.OneTileDepthAmongFirstThree | src/main/java/com/bergerkiller/bukkit/maplands/util/Linked2DTile.java:35-49 | at most one of depths 0, 1, 2 is a tile depth of a column and row |
| Tile.IsValidTile | src/test/java/com/bergerkiller/bukkit/maplands/TestLinked2DTileSet.java:84-86 | a column and row has a slot exactly when one of the depths 0, 1 and 2 is a tile there, the test's `isValidTile` |
| Tile.DepthClassAtDepth | src/main/java/com/bergerkiller/bukkit/maplands/util/Linked2DTileSet.java:226-235 | for a depth with remainder 0, 1 or 2 modulo 6, a position is a tile at that depth exactly when its depth class is `depth mod 3` |
| Tile.NoDepthClassAtUpperDepths | src/main/java/com/bergerkiller/bukkit/maplands/util/Linked2DTileSet.java:226-235 | for a depth with remainder 3, 4 or 5 modulo 6, every tile at that depth has depth class -1 |
| Tile.DepthClasses | src/main/java/com/bergerkiller/bukkit/maplands/util/Linked2DTileSet.java:226-235 | both of the above for every column and row |
| Tile.DepthFiveExample | src/main/java/com/bergerkiller/bukkit/maplands/util/Linked2DTileSet.java:233-235 | at depth 5 the list of class 2 holds (0, 0), which is no tile at depth 5, while (1, 0) is a tile at depth 5 with class -1 |
| Tile.ToBlock | src/main/java/com/bergerkiller/bukkit/maplands/util/Linked2DTile.java:61-81 | a block for each diagonal facing, `IllegalArgumentException` otherwise; its height is `-floorDiv(y,3) - floorDiv(depth,3)` |
| Tile.ToBlockOrientsLikeScreenTileToBlock | src/main/java/com/bergerkiller/bukkit/maplands/util/Linked2DTile.java:65-80 | the north-east block has `z = x - y - depth`, and the other facings turn it exactly as screenTileToBlock turns its block |
| Tile.ToBlockDepthStep | src/main/java/com/bergerkiller/bukkit/maplands/util/Linked2DTile.java:62-67 | three depths further back, the north-east block moves by (+1,-1,-1) |
| ZoomLevels.Width | src/main/java/com/bergerkiller/bukkit/maplands/ZoomLevel.java:16 | the sprite width is positive and even |
| ZoomLevels.Height | src/main/java/com/bergerkiller/bukkit/maplands/ZoomLevel.java:16 | the sprite height exceeds its width |
| ZoomLevels.OffsetX | src/main/java/com/bergerkiller/bukkit/maplands/ZoomLevel.java:28 | the x offset is minus half the width |
| ZoomLevels.OffsetZ | src/main/java/com/bergerkiller/bukkit/maplands/ZoomLevel.java:29 | the z offset is minus the width |
| ZoomLevels.TruncDiv | src/main/java/com/bergerkiller/bukkit/maplands/ZoomLevel.java:64-65 | Java's `/`: a quotient rounded towards zero, with the remainder taking the dividend's sign |
| ZoomLevels.CeilDiv | src/main/java/com/bergerkiller/bukkit/maplands/ZoomLevel.java:66 | `MathUtil.ceil` of an exact quotient: the least integer at or above it |
| ZoomLevels.DrawX | src/main/java/com/bergerkiller/bukkit/maplands/ZoomLevel.java:51-54 | the pixel column of sprite coordinate `x` is half a width per step, starting half a width left of 0 |
| ZoomLevels.DrawZ | src/main/java/com/bergerkiller/bukkit/maplands/ZoomLevel.java:62-67 | the pixel row of depth `z` is `ceil(width·z/3) - width`, for negative depths too |
| ZoomLevels.DrawXStep | src/main/java/com/bergerkiller/bukkit/maplands/ZoomLevel.java:51-54 | two columns on, the sprite is a full width to the right |
| ZoomLevels.DrawZStep | src/main/java/com/bergerkiller/bukkit/maplands/ZoomLevel.java:62-67 | three depths on, the sprite is a full width further down, and depth 0 is at `-width` |
| ZoomLevels.DrawMonotonic | src/main/java/com/bergerkiller/bukkit/maplands/ZoomLevel.java:51-67 | draw positions never decrease as the coordinate grows |
| TileLinks.IncreasingUnique | src/main/java/com/bergerkiller/bukkit/maplands/util/Linked2DTileSet.java:99-105 | two increasing lists with the same elements are equal, so each depth list is determined by the set |
| TileLinks.SlotsOfDepthSpec | src/main/java/com/bergerkiller/bukkit/maplands/util/Linked2DTileSet.java:99-105 | the tiles of one depth class in tile order are increasing and hold exactly the slots of that class |
| TileLinks.InsertLinks | src/main/java/com/bergerkiller/bukkit/maplands/util/Linked2DTileSet.java:191-192 | `link(prev, tile); link(tile, next)` around the k-th link inserts the tile at position k of the list, and the list stays increasing |
| TileLinks.RemoveLinks | src/main/java/com/bergerkiller/bukkit/maplands/util/Linked2DTile.java:91-100 | unlinking an element and nulling its links drops exactly that element from the list |
| TileLinks.LinkedChainFrame | src/main/java/com/bergerkiller/bukkit/maplands/util/Linked2DTile.java:109-112 | a list stays linked when no link of its own depth class changes |
| TileLinks.ExtendPrefix | src/main/java/com/bergerkiller/bukkit/maplands/util/Linked2DTileSet.java:102-103 | linking the last node of a partial list to a larger slot extends the list by that slot |
| TileLinks.ClosePrefix | src/main/java/com/bergerkiller/bukkit/maplands/util/Linked2DTileSet.java:108-110 | linking the last node to the tail closes the list |
| TileLinks.FindNeighbours | src/main/java/com/bergerkiller/bukkit/maplands/util/Linked2DTileSet.java:164-189 | set()'s outward search finds the two list nodes that the new tile lies strictly between, whichever side it meets first or runs off |
| TileLinks.InvalidSlotsUnlinked | src/main/java/com/bergerkiller/bukkit/maplands/util/Linked2DTileSet.java:50-52 | tiles that are not valid hexagons are never linked |
| TileLinks.EmptyArenaValid | src/main/java/com/bergerkiller/bukkit/maplands/util/Linked2DTileList.java:16-24 | null slot links with each head linked to its tail form a valid empty set |
| TileLinks.NoMembersIffChainsEmpty | src/main/java/com/bergerkiller/bukkit/maplands/util/Linked2DTileSet.java:80-84 | the set is empty exactly when all three lists are |
| TileLinks.ChainIsSortedMembers | src/main/java/com/bergerkiller/bukkit/maplands/util/Linked2DTileSet.java:226-235 | list `d` is exactly the set tiles of depth class `d` in tile order |
| TileLinks.ChainMembership | src/main/java/com/bergerkiller/bukkit/maplands/util/Linked2DTileSet.java:180-185 | a slot is in list `d` exactly when it is a set tile (non-null `next`) of class `d`, the test set()'s search makes |
| TileLinks.ChainPositionOf | src/main/java/com/bergerkiller/bukkit/maplands/util/Linked2DTileSet.java:207-208 | a set tile sits at some position of its class's list, with `prev` and `next` the nodes on either side |
| TileLinks.InsertValid | src/main/java/com/bergerkiller/bukkit/maplands/util/Linked2DTileSet.java:151-194 | inserting a valid unset tile between its list neighbours keeps the set valid and adds exactly that tile |
| TileLinks.RemoveValid | src/main/java/com/bergerkiller/bukkit/maplands/util/Linked2DTileSet.java:204-215 | unlinking the tile at position k keeps the set valid and removes exactly that tile |
| TileLinks.SetAllStart | src/main/java/com/bergerkiller/bukkit/maplands/util/Linked2DTileSet.java:91-95 | setAll starts with every list's cursor on its head and nothing linked after it |
| TileLinks.SetAllStep | src/main/java/com/bergerkiller/bukkit/maplands/util/Linked2DTileSet.java:99-105 | one pass of setAll's loop links a valid tile after the last node of its class and skips a null tile |
| TileLinks.SetAllCloseChain | src/main/java/com/bergerkiller/bukkit/maplands/util/Linked2DTileSet.java:108-110 | after closing, list `d` holds exactly the valid tiles of class `d` in order |
| TileLinks.SetAllClose | src/main/java/com/bergerkiller/bukkit/maplands/util/Linked2DTileSet.java:89-111 | at the end of setAll every valid tile is set and each list holds its class in tile order |
| TileLinks.ClosedArenaValid | src/main/java/com/bergerkiller/bukkit/maplands/util/Linked2DTileSet.java:108-110 | three closed lists, with no link on an invalid slot, form a valid set of all valid tiles |
| TileSet.BuildSlots | src/main/java/com/bergerkiller/bukkit/maplands/util/Linked2DTileSet.java:45-55 | one slot per coordinate in row-major order, with its coordinates and its depth class |
| TileSet.AppendRow | src/main/java/com/bergerkiller/bukkit/maplands/util/Linked2DTileSet.java:48-54 | the inner loop appends the slots of one row in column order, each with its coordinates and depth class, keeping the row-major index |
| TileSet.NewLinks | src/main/java/com/bergerkiller/bukkit/maplands/util/Linked2DTileList.java:16-20 | new link arrays: every tile unlinked, each head linked to its tail |
| TileSet.Linked2DTileSet.constructor | src/main/java/com/bergerkiller/bukkit/maplands/util/Linked2DTileSet.java:34-56 | the set of the given range with its slots laid out and no tile set |
| TileSet.Linked2DTileSet.Empty | src/main/java/com/bergerkiller/bukkit/maplands/util/Linked2DTileSet.java:21-23 | the default constructor: a 0 by 0 set with no tiles |
| TileSet.Linked2DTileSet.GetMinX | src/main/java/com/bergerkiller/bukkit/maplands/util/Linked2DTileSet.java:58-60 | a lower bound on every slot's x |
| TileSet.Linked2DTileSet.GetMaxX | src/main/java/com/bergerkiller/bukkit/maplands/util/Linked2DTileSet.java:62-64 | an upper bound on every slot's x |
| TileSet.Linked2DTileSet.GetMinY | src/main/java/com/bergerkiller/bukkit/maplands/util/Linked2DTileSet.java:66-68 | a lower bound on every slot's y |
| TileSet.Linked2DTileSet.GetMaxY | src/main/java/com/bergerkiller/bukkit/maplands/util/Linked2DTileSet.java:70-72 | an upper bound on every slot's y |
| TileSet.Linked2DTileSet.BoundsAreTight | src/main/java/com/bergerkiller/bukkit/maplands/util/Linked2DTileSet.java:58-72 | every coordinate within the four bounds is some slot's coordinate |
| TileSet.Linked2DTileSet.GetIndex | src/main/java/com/bergerkiller/bukkit/maplands/util/Linked2DTileSet.java:217-224 | `IllegalArgumentException` exactly outside the range; inside it, the slot with those coordinates |
| TileSet.Linked2DTileSet.SlotIndexRoundTrip | src/main/java/com/bergerkiller/bukkit/maplands/util/Linked2DTileSet.java:217-224 | the index of a slot's own coordinates is that slot |
| TileSet.Linked2DTileSet.IsSet | src/main/java/com/bergerkiller/bukkit/maplands/util/Linked2DTile.java:31-33 | a non-null `next` means the tile is a member |
| TileSet.Linked2DTileSet.Link | src/main/java/com/bergerkiller/bukkit/maplands/util/Linked2DTile.java:109-112 | `a.next = b` and `b.prev = a`, nothing else |
| TileSet.Linked2DTileSet.LinkHeadToTail | src/main/java/com/bergerkiller/bukkit/maplands/util/Linked2DTileList.java:22-24 | the head of list `d` links to its tail |
| TileSet.Linked2DTileSet.ListIsEmpty | src/main/java/com/bergerkiller/bukkit/maplands/util/Linked2DTileList.java:26-28 | `head.next == tail` exactly when list `d` has no element |
| TileSet.Linked2DTileSet.IsEmpty | src/main/java/com/bergerkiller/bukkit/maplands/util/Linked2DTileSet.java:80-84 | true exactly when no tile is set |
| TileSet.Linked2DTileSet.GetValidTiles | src/main/java/com/bergerkiller/bukkit/maplands/util/Linked2DTileSet.java:233-235 | the list of depth class `floorMod(depth, 3)`: when `floorMod(depth, 6)` is below 3, a column and row is a tile at `depth` exactly when its class is that list's; for the other depths no column and row of that class is a tile at `depth` |
| TileSet.Linked2DTileSet.ValidTilesAreSetTilesAtDepth | src/main/java/com/bergerkiller/bukkit/maplands/util/Linked2DTileSet.java:226-235 | the returned list holds exactly the set tiles that are tiles at depth `floorMod(depth, 3)`, in slot order |
| TileSet.Linked2DTileSet.Contains | src/main/java/com/bergerkiller/bukkit/maplands/util/Linked2DTileSet.java:138-141 | `IllegalArgumentException` outside the range, otherwise whether that tile is set |
| TileSet.Linked2DTileSet.Set | src/main/java/com/bergerkiller/bukkit/maplands/util/Linked2DTileSet.java:151-194 | an error outside the range; otherwise true exactly when the tile is valid and was not set, in which case it is added; the set stays valid |
| TileSet.Linked2DTileSet.Remove | src/main/java/com/bergerkiller/bukkit/maplands/util/Linked2DTile.java:91-100 | a set tile leaves its list, which keeps its other elements in order; the result is the node before it |
| TileSet.Linked2DTileSet.Clear | src/main/java/com/bergerkiller/bukkit/maplands/util/Linked2DTileSet.java:204-215 | an error outside the range; otherwise true exactly when the tile was set, in which case it is removed |
| TileSet.Linked2DTileSet.SetAll | src/main/java/com/bergerkiller/bukkit/maplands/util/Linked2DTileSet.java:89-111 | afterwards every valid tile is set and list `d` holds class `d` in tile order |
| TileSet.Linked2DTileSet.LinkSlots | src/main/java/com/bergerkiller/bukkit/maplands/util/Linked2DTileSet.java:99-105 | the loop of setAll: every valid tile linked after the previous one of its class |
| TileSet.Linked2DTileSet.CloseLists | src/main/java/com/bergerkiller/bukkit/maplands/util/Linked2DTileSet.java:108-110 | the last node of each list links to its tail |
| TileSet.Linked2DTileSet.ClearAll | src/main/java/com/bergerkiller/bukkit/maplands/util/Linked2DTileSet.java:116-129 | afterwards no tile is set and all three lists are empty |
| TileSet.Linked2DTileSet.ResetLinks | src/main/java/com/bergerkiller/bukkit/maplands/util/Linked2DTileSet.java:118-127 | every tile's links null and each head linked to its tail |
| TileSet.Linked2DTileSet.UnsetFromSpec | src/main/java/com/bergerkiller/bukkit/maplands/util/Linked2DTileSet.java:247-252 | the tiles still to be visited from index `i` are increasing and are exactly the valid, unset tiles at or after `i` |
| TileSet.InverseIterator.constructor | src/main/java/com/bergerkiller/bukkit/maplands/util/Linked2DTileSet.java:254-257 | a new iterator starts at the first tile of its set |
| TileSet.InverseIterator.Advance | src/main/java/com/bergerkiller/bukkit/maplands/util/Linked2DTileSet.java:259-272 | moves to the next valid unset tile, or returns null when none remains, without changing what remains to be visited |
| TileSet.InverseIterator.HasNext | src/main/java/com/bergerkiller/bukkit/maplands/util/Linked2DTileSet.java:275-277 | true exactly when some valid unset tile remains |
| TileSet.InverseIterator.Next | src/main/java/com/bergerkiller/bukkit/maplands/util/Linked2DTileSet.java:280-288 | the first remaining tile, which is then consumed, or `NoSuchElementException` when none remains |
| BlockBounds.MapBlockBounds.constructor | src/main/java/com/bergerkiller/bukkit/maplands/MapBlockBounds.java:14-15 | a new bounds object is the block at the origin |
| BlockBounds.MapBlockBounds.Contains | src/main/java/com/bergerkiller/bukkit/maplands/MapBlockBounds.java:17-21 | the inclusive box test on all three axes |
| BlockBounds.MapBlockBounds.Update | src/main/java/com/bergerkiller/bukkit/maplands/MapBlockBounds.java:23-65 | the smallest box holding the block of every tile in the range, moved by the start block: it holds each one and each bound is reached; with no block, the start block alone |
| BlockBounds.MapBlockBounds.UpdateFrom | src/main/java/com/bergerkiller/bukkit/maplands/MapBlockBounds.java:27-64 | the loops and the start-block offset for any tile-to-block map: every block of the range, moved, lies in the box, and each bound is reached; with no block, the start block alone |
| BlockBounds.ScanTiles | src/main/java/com/bergerkiller/bukkit/maplands/MapBlockBounds.java:27-50 | the three loops: whether any tile shows a block, and the tight box of those blocks |
| BlockBounds.ScanColumn | src/main/java/com/bergerkiller/bukkit/maplands/MapBlockBounds.java:29-49 | the y loop for one column keeps the scan state |
| BlockBounds.ScanRow | src/main/java/com/bergerkiller/bukkit/maplands/MapBlockBounds.java:30-48 | the z loop for one row keeps the scan state |
| BlockBounds.IncludeFirst | src/main/java/com/bergerkiller/bukkit/maplands/MapBlockBounds.java:35-39 | the first block seen becomes the whole box |
| BlockBounds.IncludeWiden | src/main/java/com/bergerkiller/bukkit/maplands/MapBlockBounds.java:40-47 | widening by a later block keeps every block so far inside and every bound reached |
| BlockBounds.NextTile | src/main/java/com/bergerkiller/bukkit/maplands/MapBlockBounds.java:31-34 | a tile that shows no block leaves the box as it was |
| BlockBounds.CompleteScan | src/main/java/com/bergerkiller/bukkit/maplands/MapBlockBounds.java:27-56 | when the loops end, `is_first` is still true exactly when no tile showed a block, and otherwise the box is tight |
| BlockBounds.MovedBox | src/main/java/com/bergerkiller/bukkit/maplands/MapBlockBounds.java:58-64 | adding the start block keeps every bound reached |
| RenderGrid.CellIndex | src/main/java/com/bergerkiller/bukkit/maplands/MaplandsDisplay.java:240-243 | `(ty - minRows) * columns + (tx - minCols)` is an index in the buffer |
| RenderGrid.CellIndexInjective | src/main/java/com/bergerkiller/bukkit/maplands/MaplandsDisplay.java:240-243 | distinct tiles use distinct buffer entries |
| RenderGrid.CellIndexOnto | src/main/java/com/bergerkiller/bukkit/maplands/MaplandsDisplay.java:199-206 | every buffer entry belongs to some tile of the grid |
| RenderGrid.Reindex | src/main/java/com/bergerkiller/bukkit/maplands/MaplandsDisplay.java:519-549 | the re-indexed buffer: tiles whose old position is inside the kept region keep their old flag, all others are not drawn |
| RenderGrid.ReindexedUnique | src/main/java/com/bergerkiller/bukkit/maplands/MaplandsDisplay.java:519-549 | the re-indexed buffer is determined by the old buffer and the move |
| RenderGrid.ReindexStill | src/main/java/com/bergerkiller/bukkit/maplands/MaplandsDisplay.java:519-549 | a move by no tiles keeps the buffer as it is |
| RenderGrid.ReindexOnlyForgets | src/main/java/com/bergerkiller/bukkit/maplands/MaplandsDisplay.java:519-549 | a tile marked drawn after a move was drawn at its old position |
| RenderGrid.ShiftedDepths | src/main/java/com/bergerkiller/bukkit/maplands/MaplandsDisplay.java:552-559 | every stored depth except `MAX_DEPTH` is lowered by `dty`; the buffer keeps its length |
| RenderGrid.ShiftedDepthsInverse | src/main/java/com/bergerkiller/bukkit/maplands/MaplandsDisplay.java:552-559 | shifting back undoes a shift that sends no depth onto `MAX_DEPTH`, and `MAX_DEPTH` entries stay where they were |
| RenderGrid.ShiftDepths | src/main/java/com/bergerkiller/bukkit/maplands/MaplandsDisplay.java:552-559 | the depth buffer in place becomes the shifted depths |
| RenderGrid.ClearDepths | src/main/java/com/bergerkiller/bukkit/maplands/MaplandsDisplay.java:164-166 | `clearDepthBuffer`: every pixel's depth becomes `MAX_DEPTH` |
| RenderGrid.ShiftCleared | src/main/java/com/bergerkiller/bukkit/maplands/MaplandsDisplay.java:552-559 | a cleared buffer is unchanged by the vertical shift |
| RenderGrid.RenderRow | src/main/java/com/bergerkiller/bukkit/maplands/MaplandsDisplay.java:648-657 | in one row, a tile becomes drawn when it was drawn or leaves no void; the rest of the buffer is untouched |
| RenderGrid.RenderSlice | src/main/java/com/bergerkiller/bukkit/maplands/MaplandsDisplay.java:641-660 | one slice at a depth: each tile is marked drawn exactly when already drawn or drawn now without void; skipped rows change nothing |
| RenderGrid.SliceOnlyMarksCovered | src/main/java/com/bergerkiller/bukkit/maplands/MaplandsDisplay.java:641-660 | a slice never clears a flag, and a flag it sets belongs to a tile that left no void |
| RenderGrid.ResetDrawn | src/main/java/com/bergerkiller/bukkit/maplands/MaplandsDisplay.java:203-205 | every tile of the buffer is marked not drawn |
| RenderGrid.RendersNext | src/main/java/com/bergerkiller/bukkit/maplands/MaplandsDisplay.java:710-715 | the forward render reaches the next depth exactly when it reached this one and this slice reported more depth |
| RenderGrid.SweptStep | src/main/java/com/bergerkiller/bukkit/maplands/MaplandsDisplay.java:710-715 | one more slice of the render loop extends the swept effect by that slice's drawn tiles, or by nothing when no forward render reaches it |
| RenderGrid.SweptOnlyAdds | src/main/java/com/bergerkiller/bukkit/maplands/MaplandsDisplay.java:710-715 | the render loop never clears a drawn flag, and changes nothing when no forward render was needed |
| RenderGrid.SweptFirst | src/main/java/com/bergerkiller/bukkit/maplands/MaplandsDisplay.java:710-715 | when a forward render was needed, every tile the first slice draws without void is drawn afterwards |
| ViewControls.WrapIndex | src/main/java/com/bergerkiller/bukkit/maplands/MaplandsDisplay.java:393-398 | the menu index wraps into `[0, n)`, the floor remainder of the index |
| ViewControls.Selection | src/main/java/com/bergerkiller/bukkit/maplands/MaplandsDisplay.java:399-404 | exactly the button at the index is selected |
| ViewControls.Clamp | src/main/java/com/bergerkiller/bukkit/maplands/MaplandsDisplay.java:409-414 | the zoom index stays within the levels: unchanged inside, the nearest end outside |
| ViewControls.IndexOf | src/main/java/com/bergerkiller/bukkit/maplands/MaplandsDisplay.java:408 | the first position of the zoom level among the levels |
| ViewControls.StepZoom | src/main/java/com/bergerkiller/bukkit/maplands/MaplandsDisplay.java:407-416 | the level `n` steps from the current one, clamped to the available levels |
| Display.DrawBlockAtTile | src/main/java/com/bergerkiller/bukkit/maplands/MaplandsDisplay.java:333-372 | a block is skipped exactly when it is outside the world's height, or when a redraw meets air; otherwise it is drawn at the tile's pixel column offset to the canvas middle, and reports void exactly when the sprite leaves some |
| Display.DrawBlockTile | src/main/java/com/bergerkiller/bukkit/maplands/MaplandsDisplay.java:314-321 | a position that is not a tile, or not seen from a diagonal facing, leaves void; otherwise void remains exactly when its block is skipped or leaves void |
| Display.RowSkipped | src/main/java/com/bergerkiller/bukkit/maplands/MaplandsDisplay.java:648-650 | the row test of renderSlice skips every row or none, by whether the start block's height is outside 0..256 |
| Display.RescheduledStays | src/main/java/com/bergerkiller/bukkit/maplands/MaplandsDisplay.java:692-705 | invalidating more tiles, lowering the cursor or requesting a forward render keeps an invalidated neighbourhood invalidated |
| Display.RedrawStep | src/main/java/com/bergerkiller/bukkit/maplands/MaplandsDisplay.java:693-701 | redrawing one more dirty tile extends the combined effect of the tiles before it, given the tiles it touches are only marked not drawn |
| Display.RedrawnOnlyClears | src/main/java/com/bergerkiller/bukkit/maplands/MaplandsDisplay.java:692-704 | processing the dirty tiles never marks a tile drawn |
| Display.MaplandsDisplay.constructor | src/main/java/com/bergerkiller/bukkit/maplands/MaplandsDisplay.java:62-111 | onAttached: the stored view, a grid centred on the start tile, no menu selection, and a first render: the depth range around the start block, the cursor at the last depth with rendering finished when the cache held a finished canvas and at the first depth unfinished otherwise, a forward render requested, no dirty tiles, every tile not drawn, the block bounds of the new view, and the depth buffer cleared unless the cache held the canvas |
| Display.MaplandsDisplay.Render | src/main/java/com/bergerkiller/bukkit/maplands/MaplandsDisplay.java:134-209 | the centred grid, the depth range, the cursor at the last depth for a finished render from the cache and at the first depth otherwise, no dirty tiles, every tile not drawn unless the view was only translated, the depth buffer cleared for a render from scratch and untouched otherwise, and block bounds that are the tight box of the blocks the grid and depth range can show, moved by the start block |
| Display.MaplandsDisplay.ResetView | src/main/java/com/bergerkiller/bukkit/maplands/MaplandsDisplay.java:134-209 | render apart from the bounds update: the grid, the depth range, the cursor, no dirty tiles, the drawn-tile reset and the depth buffer cleared for a render from scratch |
| Display.MaplandsDisplay.UpdateBounds | src/main/java/com/bergerkiller/bukkit/maplands/MaplandsDisplay.java:182-185 | the block bounds become the tight box for the current grid columns, depth range and rows, the facing and the start block; the rest of the display is unchanged |
| Display.MaplandsDisplay.SetBounds | src/main/java/com/bergerkiller/bukkit/maplands/MaplandsDisplay.java:172-180 | the grid of the given columns and rows around the start tile, and the depth range from `-rows - (256 - y)` to `rows + y` |
| Display.MaplandsDisplay.SetCursor | src/main/java/com/bergerkiller/bukkit/maplands/MaplandsDisplay.java:187-195 | the cursor at the last depth for a finished render from the cache, at the first depth otherwise |
| Display.MaplandsDisplay.ResetTiles | src/main/java/com/bergerkiller/bukkit/maplands/MaplandsDisplay.java:199-206 | a buffer of the grid's size with every tile not drawn, newly made only when the size changed |
| Display.MaplandsDisplay.InvalidateTile | src/main/java/com/bergerkiller/bukkit/maplands/MaplandsDisplay.java:237-247 | a tile on the grid is marked not drawn, a forward render is requested and the cursor moves back to its depth; a tile off the grid changes nothing |
| Display.MaplandsDisplay.AddDirtyTile | src/main/java/com/bergerkiller/bukkit/maplands/MaplandsDisplay.java:229-233 | a changed block's tile becomes dirty exactly when it exists and lies on the grid |
| Display.MaplandsDisplay.MoveStartBlock | src/main/java/com/bergerkiller/bukkit/maplands/MaplandsDisplay.java:490-566 | the start block moves and the facing, zoom and menu state stay; a move of a canvas size or more renders everything again, with every tile not drawn and the depth buffer cleared; a smaller one re-indexes the buffer and shifts the depths by `dty`; the render restarts at the first depth with a forward render requested and no dirty tiles, and the block bounds follow the moved view |
| Display.MaplandsDisplay.Translate | src/main/java/com/bergerkiller/bukkit/maplands/MaplandsDisplay.java:508-562 | the small move: start block, facing, zoom and menu state unchanged, the buffer re-indexed by the tile offset, the depths lowered by `dty` when it is not zero, the render restarted at the first depth without clearing, and the block bounds of the moved view |
| Display.MaplandsDisplay.ShiftView | src/main/java/com/bergerkiller/bukkit/maplands/MaplandsDisplay.java:508-561 | the small move apart from the bounds update: start block, facing, zoom and menu state unchanged, the re-indexed buffer, the shifted depths and the restarted cursor |
| Display.MaplandsDisplay.OnBlockChange | src/main/java/com/bergerkiller/bukkit/maplands/MaplandsDisplay.java:215-233 | a changed block of the same world inside the block bounds makes its tile dirty when the tile exists and lies on the grid; any other change leaves the dirty set alone |
| Display.MaplandsDisplay.RenderSlice | src/main/java/com/bergerkiller/bukkit/maplands/MaplandsDisplay.java:641-660 | each tile not yet drawn is drawn at the depth and marked drawn when it leaves no void; nothing changes when the start block is outside the world's height |
| Display.MaplandsDisplay.ProcessDirtyTiles | src/main/java/com/bergerkiller/bukkit/maplands/MaplandsDisplay.java:690-705 | the dirty set is emptied; every dirty tile whose redraw at its own depth leaves a hole has its 3 by 5 neighbourhood on the grid not drawn; every tile outside all such neighbourhoods keeps its flag; the cursor is the earlier of its old value and the depths of the holes that reach the grid, and a forward render is requested exactly when one was or such a hole exists |
| Display.MaplandsDisplay.RedrawTiles | src/main/java/com/bergerkiller/bukkit/maplands/MaplandsDisplay.java:692-704 | the loop over dirty tiles: the same effect as ProcessDirtyTiles for any hole test, and tiles are only ever marked not drawn |
| Display.MaplandsDisplay.RedrawTile | src/main/java/com/bergerkiller/bukkit/maplands/MaplandsDisplay.java:694-701 | one dirty tile: a hole marks exactly its neighbourhood not drawn and, when the neighbourhood reaches the grid, lowers the cursor to its depth and requests a forward render; no hole changes nothing |
| Display.MaplandsDisplay.RedrawNext | src/main/java/com/bergerkiller/bukkit/maplands/MaplandsDisplay.java:693-701 | one turn of the loop over dirty tiles extends the combined effect from the tiles handled so far to one more tile |
| Display.MaplandsDisplay.InvalidateAround | src/main/java/com/bergerkiller/bukkit/maplands/MaplandsDisplay.java:696-700 | the two loops mark exactly the grid tiles within one column and two rows of the hole not drawn; the cursor drops to the hole's depth and a forward render is requested exactly when the neighbourhood reaches the grid |
| Display.MaplandsDisplay.InvalidateColumn | src/main/java/com/bergerkiller/bukkit/maplands/MaplandsDisplay.java:697-699 | the inner loop marks exactly the five grid tiles of one column around the hole not drawn; cursor and forward flag change exactly when one of them is on the grid |
| Display.MaplandsDisplay.RenderForward | src/main/java/com/bergerkiller/bukkit/maplands/MaplandsDisplay.java:707-734 | while depths remain: the cursor advances at least once and stops at the first depth past the last or the first slice count outside the budget, every earlier count being within it; the forward flag says whether every slice taken reported more depth; a tile is drawn afterwards exactly when it was drawn before or some slice still rendered left no void at it (nothing changes outside the world's height); rendering is finished exactly when it was or when the cursor passes the last depth |
| Display.MaplandsDisplay.RenderAtCursor | src/main/java/com/bergerkiller/bukkit/maplands/MaplandsDisplay.java:711-714 | one turn of the render loop extends the swept effect and the forward flag from the slices before the cursor to the slice at it |
| Display.MaplandsDisplay.OnTick | src/main/java/com/bergerkiller/bukkit/maplands/MaplandsDisplay.java:668-735 | the dirty tiles are handled and then the render loop; no dirty tile remains, and a cursor past the end means rendering has finished |
| Display.MaplandsDisplay.SetMenuIndex | src/main/java/com/bergerkiller/bukkit/maplands/MaplandsDisplay.java:392-405 | the index wraps into the five buttons; only a change of index selects that button alone |
| Display.MaplandsDisplay.Zoom | src/main/java/com/bergerkiller/bukkit/maplands/MaplandsDisplay.java:407-417 | the clamped zoom level with the start block, facing and menu state unchanged, and a render from scratch: the new grid and its depth range, the cursor at the first depth with a forward render requested and no dirty tiles, every tile not drawn, the depth buffer cleared and the block bounds of the new view |
| Display.Abs | src/main/java/com/bergerkiller/bukkit/maplands/MaplandsDisplay.java:505 | `Math.abs`: the magnitude |
| TestFrame.BlockAtTile | src/main/java/com/bergerkiller/bukkit/maplands/TestFrameMap.java:381-383 | a block exists exactly for a tile position, after the frame's tile offset, seen from a diagonal facing |
| TestFrame.DrawBlock | src/main/java/com/bergerkiller/bukkit/maplands/TestFrameMap.java:239-296 | a position without a block leaves void; otherwise void remains exactly when the block is skipped or its sprite leaves void |
| TestFrame.TestFrameMap.constructor | src/main/java/com/bergerkiller/bukkit/maplands/TestFrameMap.java:43-74 | the stored view, no tile offset, the frame's grid, the cursor at `-VIEW_RANGE` with a forward render requested, every tile not drawn and, from the first `render(true)`, every depth of the depth buffer at `MAX_DEPTH` |
| TestFrame.TestFrameMap.Render | src/main/java/com/bergerkiller/bukkit/maplands/TestFrameMap.java:76-134 | the grid, the cursor at `-VIEW_RANGE`, a forward render requested; when clearing, every tile not drawn and every depth at `MAX_DEPTH`; otherwise the drawn tiles and the depth buffer untouched |
| TestFrame.TestFrameMap.ResetTiles | src/main/java/com/bergerkiller/bukkit/maplands/TestFrameMap.java:113-131 | a buffer of the grid's size with every tile not drawn |
| TestFrame.TestFrameMap.MoveTiles | src/main/java/com/bergerkiller/bukkit/maplands/TestFrameMap.java:182-237 | the start block moves and the facing, zoom and menu state stay, the buffer is re-indexed by the tile move, the depths shift by `dtz`, and the render restarts at `-VIEW_RANGE` with a forward render requested |
| TestFrame.TestFrameMap.RenderSlice | src/main/java/com/bergerkiller/bukkit/maplands/TestFrameMap.java:385-398 | each tile not yet drawn is drawn at height `y` and marked drawn when it leaves no void |
| TestFrame.TestFrameMap.OnTick | src/main/java/com/bergerkiller/bukkit/maplands/TestFrameMap.java:401-424 | while heights remain: the cursor advances at least once and stops at the first height past `VIEW_RANGE` or the first slice count outside the budget, every earlier count being within it; the forward flag says whether every slice taken reported more depth; a tile is drawn afterwards exactly when it was drawn before or some slice still rendered left no void at it |
| TestFrame.TestFrameMap.SetMenuIndex | src/main/java/com/bergerkiller/bukkit/maplands/TestFrameMap.java:315-328 | the index wraps into the buttons; only a change of index selects that button alone |
| TestFrame.TestFrameMap.Zoom | src/main/java/com/bergerkiller/bukkit/maplands/TestFrameMap.java:330-340 | the clamped zoom level with the start block, facing and menu state unchanged, and a render from scratch: the new grid, the cursor at `-VIEW_RANGE` with a forward render requested, every tile not drawn and every depth at `MAX_DEPTH` |
| DisplayChunks.ToChunk | src/main/java/com/bergerkiller/bukkit/maplands/MaplandsDisplayChunks.java:37-39 | `x >> 4`: the chunk whose 16 blocks hold `x` |
| DisplayChunks.Expire | src/main/java/com/bergerkiller/bukkit/maplands/MaplandsDisplayChunks.java:27-34 | the entries kept are exactly those whose timeout has not come, unchanged |
| DisplayChunks.PartialStep | src/main/java/com/bergerkiller/bukkit/maplands/MaplandsDisplayChunks.java:29-33 | looking at one entry removes it exactly when it has expired |
| DisplayChunks.ExpireKept | src/main/java/com/bergerkiller/bukkit/maplands/MaplandsDisplayChunks.java:23-35 | after a tick every kept chunk still expires within a minute |
| DisplayChunks.MaplandsDisplayChunks.constructor | src/main/java/com/bergerkiller/bukkit/maplands/MaplandsDisplayChunks.java:18-21 | no world, no chunks, no last value, tick 0 |
| DisplayChunks.MaplandsDisplayChunks.Update | src/main/java/com/bergerkiller/bukkit/maplands/MaplandsDisplayChunks.java:23-35 | one tick passes, the last value is forgotten and the table keeps exactly the unexpired chunks |
| DisplayChunks.MaplandsDisplayChunks.CacheChunk | src/main/java/com/bergerkiller/bukkit/maplands/MaplandsDisplayChunks.java:41-55 | another world clears the table; the chunk's entry (through the last value or the table, whichever is used) becomes the last value and is kept a minute from now; the result is whether it has loaded |
| DisplayChunks.MaplandsDisplayChunks.CacheBlock | src/main/java/com/bergerkiller/bukkit/maplands/MaplandsDisplayChunks.java:37-39 | cacheChunk on the chunk holding the block column: the world becomes the given one, the table keeps its other entries for the same world and is cleared for another, the chunk becomes the last value and is kept a minute from now, the ticks are unchanged and the result is whether it has loaded |
| DisplayChunks.MaplandsDisplayChunks.Clear | src/main/java/com/bergerkiller/bukkit/maplands/MaplandsDisplayChunks.java:57-63 | no chunk and no last value remain |
| BlockSprites.OpacityScan | src/main/java/com/bergerkiller/bukkit/maplands/IsometricBlockSprites.java:75-84 | the scan answers true exactly when no masked pixel of the texture is transparent |
| BlockSprites.RenderSprite | src/main/java/com/bergerkiller/bukkit/maplands/IsometricBlockSprites.java:66-87 | the sprite keeps the drawn texture and is fully opaque exactly when the mask's pixels are all covered |
| BlockSprites.IsometricBlockSprites.constructor | src/main/java/com/bergerkiller/bukkit/maplands/IsometricBlockSprites.java:31-38 | the zoom level's sprite size, and the air sprite rendered and remembered |
| BlockSprites.IsometricBlockSprites.GetSprite | src/main/java/com/bergerkiller/bukkit/maplands/IsometricBlockSprites.java:62-64 | a remembered sprite is returned unchanged; otherwise a new one is rendered and remembered, with nothing else added |
| BlockSprites.SpriteRegistry.constructor | src/main/java/com/bergerkiller/bukkit/maplands/IsometricBlockSprites.java:105 | an empty registry |
| BlockSprites.SpriteRegistry.GetSprites | src/main/java/com/bergerkiller/bukkit/maplands/IsometricBlockSprites.java:107-116 | the registered set for a facing and zoom when there is one; otherwise a new set is appended; no two sets share a facing and zoom |
| Config.UpperCase | src/main/java/com/bergerkiller/bukkit/maplands/Maplands.java:94 | `toUpperCase(Locale.ENGLISH)` on ASCII letters, character by character |
| Config.EqualsIgnoreCase | src/main/java/com/bergerkiller/bukkit/maplands/Maplands.java:73-84 | `equalsIgnoreCase` on ASCII: equal lengths and characters equal up to case, whether folded to lower or to upper case |
| Config.EqualsIgnoreCaseUpper | src/main/java/com/bergerkiller/bukkit/maplands/Maplands.java:73-84 | upper-casing a name does not change which constant it equals ignoring case |
| Config.NamedColour | src/main/java/com/bergerkiller/bukkit/maplands/Maplands.java:73-84 | the six named constants, matched ignoring case; any other name is not a constant |
| Config.NamedColourUpper | src/main/java/com/bergerkiller/bukkit/maplands/Maplands.java:73-84 | names match ignoring case, so upper-casing changes nothing |
| Config.NotNamed | src/main/java/com/bergerkiller/bukkit/maplands/Maplands.java:73-84 | a name that does not start with a letter is not a constant |
| Config.WithoutHashes | src/main/java/com/bergerkiller/bukkit/maplands/Maplands.java:86-88 | the name after all of its leading `#` |
| Config.WithoutHexPrefix | src/main/java/com/bergerkiller/bukkit/maplands/Maplands.java:89-91 | the name after a leading `0x` or `0X`, unchanged otherwise |
| Config.StripHashes | src/main/java/com/bergerkiller/bukkit/maplands/Maplands.java:86-88 | the while loop yields the name without its leading `#` |
| Config.WithoutHashesPrefix | src/main/java/com/bergerkiller/bukkit/maplands/Maplands.java:86-88 | any number of `#` before a name without one are all stripped |
| Config.DigitChar | src/main/java/com/bergerkiller/bukkit/maplands/Maplands.java:94-97 | the digit character whose value is `d` |
| Config.DigitValue | src/main/java/com/bergerkiller/bukkit/maplands/Maplands.java:94-97 | `Character.digit` on ASCII: a value below 36 exactly for a decimal digit or a letter of either case |
| Config.DigitsValueDefined | src/main/java/com/bergerkiller/bukkit/maplands/Maplands.java:94-97 | a digit string has a value exactly when every character is a digit of the radix |
| Config.DigitsValueBound | src/main/java/com/bergerkiller/bukkit/maplands/Maplands.java:94-97 | the value of `k` digits of a radix is below `radix^k` |
| Config.ParseInt | src/main/java/com/bergerkiller/bukkit/maplands/Maplands.java:94-97 | `Integer.parseInt`: a 32-bit value or `NumberFormatException`, the latter for an empty string or a lone sign |
| Config.ParseIntUpper | src/main/java/com/bergerkiller/bukkit/maplands/Maplands.java:94-97 | parsing does not depend on case |
| Config.ParseIntBadDigit | src/main/java/com/bergerkiller/bukkit/maplands/Maplands.java:104-106 | a non-digit after the first character makes parsing fail |
| Config.NumeralRoundTrip | src/main/java/com/bergerkiller/bukkit/maplands/Maplands.java:93-97 | the `k`-digit numeral of any value below `radix^k` parses back to that value |
| Config.DecimalRoundTrip | src/main/java/com/bergerkiller/bukkit/maplands/Maplands.java:97 | every 32-bit integer written in decimal parses back to itself |
| Config.HexRoundTrip | src/main/java/com/bergerkiller/bukkit/maplands/Maplands.java:93-95 | every 24-bit colour written in six hex digits parses back to itself |
| Config.NumberColour | src/main/java/com/bergerkiller/bukkit/maplands/Maplands.java:92-106 | a six-character name is a 24-bit RGB colour; any other length is a map colour index in 0..255; out of range or undecodable keeps the current colour with the matching warning |
| Config.BackgroundOf | src/main/java/com/bergerkiller/bukkit/maplands/Maplands.java:72-107 | the decoded colour: a named constant without warning, or the number after the prefixes; on a warning the colour is unchanged |
| Config.DecodeBackground | src/main/java/com/bergerkiller/bukkit/maplands/Maplands.java:72-107 | the statement sequence computes the decoded background colour and warning |
| Config.DecodeNumber | src/main/java/com/bergerkiller/bukkit/maplands/Maplands.java:92-106 | the try block computes the number's colour and warning |
| Config.NamedBackground | src/main/java/com/bergerkiller/bukkit/maplands/Maplands.java:73-84 | a named constant in any case decodes to that constant without warning |
| Config.DecimalBackground | src/main/java/com/bergerkiller/bukkit/maplands/Maplands.java:86-103 | any number of `#` before a decimal numeral that is not 6 characters long gives that map colour when it is in 0..255, and the out-of-range warning otherwise |
| Config.HexBackground | src/main/java/com/bergerkiller/bukkit/maplands/Maplands.java:86-95 | one or more `#` before six hex digits of either case decodes to exactly the RGB colour they spell |
| Config.ConfiguredExampleBackground | src/main/java/com/bergerkiller/bukkit/maplands/Maplands.java:70 | the documented example `#1256FE` decodes to the RGB colour 0x1256FE without warning |
| Config.Hex6Background | src/main/java/com/bergerkiller/bukkit/maplands/Maplands.java:86-95 | `#` followed by the six lower-case hex digits of a 24-bit colour decodes to that colour |
| Config.SixDigitNumber | src/main/java/com/bergerkiller/bukkit/maplands/Maplands.java:93-95 | six characters that parse, upper-cased, to a 24-bit value give that RGB colour |
| Config.OnlyHashesBackground | src/main/java/com/bergerkiller/bukkit/maplands/Maplands.java:86-88 | a name made only of `#` cannot be decoded and keeps the current colour |
| Config.BadCharacterBackground | src/main/java/com/bergerkiller/bukkit/maplands/Maplands.java:92-106 | a non-constant whose stripped text holds a non-digit after its first character keeps the current colour with the cannot-decode warning |
| Config.Setting | src/main/java/com/bergerkiller/bukkit/maplands/Maplands.java:63 | `config.get(key, default)`: the stored value when present, the default otherwise |
| Config.Settings.constructor | src/main/java/com/bergerkiller/bukkit/maplands/Maplands.java:23-24 | render time 50 ms and a transparent background before enabling |
| Config.Settings.Enable | src/main/java/com/bergerkiller/bukkit/maplands/Maplands.java:61-107 | the configured render time (default 50) and the background decoded from the configured name (default "transparent") |

## Left out

- **Reading and saving the file:** `MapCanvasCache`, the cache files, the map properties store and the configuration file. The stored values are parameters (`cacheLoaded`, `finishedRendering`, `Setting`).
- **Time and concurrency:** the time budget is a predicate `withinBudget` on the number of slices taken. The asynchronous chunk load is the boolean `isDone`.
- **Canvas pixel work** (the canvas, the world and the resource pack are oracles, not state):
  - sprite drawing, lighting and the depth test (`clearDepthBuffer` is modelled, on the depth buffer array of both `MaplandsDisplay` and `TestFrameMap`);
  - `movePixels` and the background fill when a render finishes.
- **Block drawing oracles:** `drawModel` and `MapColorPalette.isTransparent` are parameters of the sprite model, and `isAir`, `moreDepth` and `sliceHasMoreDepth` are parameters of both renderers. The display's `moreDepth` is asked with the draw depth, because onTick sets it to each dirty tile's depth; it is a fixed function, so how earlier draws of the same tick change the canvas is not modelled. `MapColorPalette.getColor` (the RGB to palette lookup) is external: `Config` keeps the parsed RGB value.
- **Floating point:** zoom transforms (`getTransform`, `dx`, `dz`, `scale`, `pitch`) and the mask texture loading. The mask is a byte sequence parameter. `getDrawZ`'s `MathUtil.ceil` of a double quotient is modelled as exact integer ceiling division, which it equals for the small operands the renderer uses.
- **Missing MapUtil members:** `MapUtil.getTilePXY` and `MapUtil.getTileDepthModThree` are not part of this model. The first is the `pxy` parameter of `Tile.ToBlock`. The depth class is defined as the depth in 0..2 at which `isTile` holds, and -1 otherwise.
- **Tile lookups:** `MapUtil.blockToScreenTile`, `getScreenX`/`getScreenY`, `getTileAt`, `getBlockAt` and `getScreenCoordinates` are not part of this model. The tile of a changed block is a parameter of `OnBlockChange` and `AddDirtyTile`, and the tile and pixel offsets of a move are parameters of `MoveStartBlock` and `MoveTiles`.
- **Menus, markers and input:** menu widgets, button blinking and map markers; `onKeyPressed`, `rotate`, `setStartBlock`, `moveStartBlock(direction, amount)` and the click handlers; the listeners and `TCMapListener`; the static display lookup. Only the menu index and zoom bookkeeping is modelled.
- **Integer width:** Java `int` overflow is not modelled. Coordinates, ticks and indices are unbounded integers. `Config.ParseInt` does check the 32-bit range, as `Integer.parseInt` does.
- **Character handling:** `Config.UpperCase` and `Config.EqualsIgnoreCase` fold ASCII letters only, and `Config.DigitValue` reads ASCII digits only. Java's locale-aware upper-casing of other characters (which can change a string's length), the non-ASCII case pairs `equalsIgnoreCase` accepts (the long s equals "s", the Kelvin sign equals "k") and non-ASCII digits are not modelled.
- **Chunk handles:** `LoadedChunk.close` and `WorldUtil.forceChunkLoaded` belong to the server. Keys stand for the forced chunks.
- **Object identity of tiles:** a tile is its slot number. Tile objects with `prev`/`next` references become two arrays of slot numbers, which express the same aliasing.
- **Block bounds call:** `render` calls `blockBounds.update(facing, …)` and then `offset(startBlock)`, an overload and a method that `MapBlockBounds.java` does not define. The model calls the `update` that file does define, with the start block, which adds the start block as lines 58-64 do. The tile range is passed in the order the call writes it: columns, then the depth range, then rows.
- Display.MaplandsDisplay.OnTick: its contract states only what holds after both phases; the precise effects are stated by `ProcessDirtyTiles` and `RenderForward`, which it calls in sequence.
- TestFrame.TestFrameMap.OnTick and Display.MaplandsDisplay.RenderForward: the budget is a predicate on the number of slices taken, not elapsed time, so the stop rule is stated on slice counts.
