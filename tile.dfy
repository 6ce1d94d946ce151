/**
 * The arithmetic of a single Linked2DTile: its depth class and the block it
 * shows at a given depth (Linked2DTile.java). The links of a tile live in
 * the arena of module TileSet.
 */
module Tile {
  import opened Wrappers
  import opened MapUtil

  /**
   * The depth, modulo 3, at which the tile in column `x` and row `y` is
   * drawn, or -1 when no depth is a tile there.
   */
  function DepthModThree(x: int, y: int): (d: int)
    ensures -1 <= d <= 2
    ensures d == 0 <==> IsTile(x, y, 0)
    ensures d == 1 <==> IsTile(x, y, 1)
    ensures d == 2 <==> IsTile(x, y, 2)
  {
    OneTileDepthAmongFirstThree(x, y);
    if IsTile(x, y, 0) then 0 else if IsTile(x, y, 1) then 1 else if IsTile(x, y, 2) then 2 else -1
  }

  /** At most one of the depths 0, 1 and 2 is a tile in any column and row. */
  lemma OneTileDepthAmongFirstThree(x: int, y: int)
    ensures !(IsTile(x, y, 0) && IsTile(x, y, 1))
    ensures !(IsTile(x, y, 0) && IsTile(x, y, 2))
    ensures !(IsTile(x, y, 1) && IsTile(x, y, 2))
  {
    if IsTile(x, y, 0) && IsTile(x, y, 1) { TilesOfOneColumnRowAreSixApart(x, y, 0, 1); }
    if IsTile(x, y, 0) && IsTile(x, y, 2) { TilesOfOneColumnRowAreSixApart(x, y, 0, 2); }
    if IsTile(x, y, 1) && IsTile(x, y, 2) { TilesOfOneColumnRowAreSixApart(x, y, 1, 2); }
  }

  /**
   * A tile is valid, and gets a slot in a tile set, when its depth class is
   * not -1: some depth among 0, 1 and 2 is a tile there.
   */
  predicate IsValidTile(x: int, y: int): (r: bool)
    ensures r <==> IsTile(x, y, 0) || IsTile(x, y, 1) || IsTile(x, y, 2)
  {
    DepthModThree(x, y) != -1
  }

  /**
   * For a depth whose remainder modulo 6 is 0, 1 or 2, the tiles at that
   * depth are exactly the columns and rows of depth class `depth mod 3`.
   */
  lemma {:induction false} DepthClassAtDepth(x: int, y: int, depth: int)
    requires FloorMod(depth, 6) < 3
    ensures IsTile(x, y, depth) <==> DepthModThree(x, y) == FloorMod(depth, 3)
  {
    var r := FloorMod(depth, 6);
    var q := FloorDiv(depth, 6);
    assert depth == 3 * (2 * q) + r;
    assert FloorMod(depth, 3) == r;
    TileDepthResidue(x, y, depth);
    TileDepthResidue(x, y, r);
    assert FloorMod(r, 6) == r;
  }

  /**
   * For the other depths, no tile at that depth has a depth class: every
   * tile drawn there lies in a column and row that has no slot.
   */
  lemma {:induction false} NoDepthClassAtUpperDepths(x: int, y: int, depth: int)
    requires FloorMod(depth, 6) >= 3 && IsTile(x, y, depth)
    ensures DepthModThree(x, y) == -1
  {
    var d := DepthModThree(x, y);
    if d != -1 {
      TilesOfOneColumnRowAreSixApart(x, y, depth, d);
      ResidueOfOffset(depth, d);
      assert false;
    }
  }

  /** A number a multiple of 6 above `d` in 0..5 has remainder `d`. */
  lemma ResidueOfOffset(a: int, d: int)
    requires 0 <= d < 6 && FloorMod(a - d, 6) == 0
    ensures FloorMod(a, 6) == d
  {
    assert a == 6 * FloorDiv(a - d, 6) + d;
  }

  /** DepthClassAtDepth and NoDepthClassAtUpperDepths for every column and row. */
  lemma DepthClasses(depth: int)
    ensures FloorMod(depth, 6) < 3 ==> forall x, y :: IsTile(x, y, depth) <==> DepthModThree(x, y) == FloorMod(depth, 3)
    ensures FloorMod(depth, 6) >= 3 ==> forall x, y :: DepthModThree(x, y) == FloorMod(depth, 3) ==> !IsTile(x, y, depth)
  {
    forall x, y
      ensures FloorMod(depth, 6) < 3 ==> (IsTile(x, y, depth) <==> DepthModThree(x, y) == FloorMod(depth, 3))
      ensures FloorMod(depth, 6) >= 3 ==> (DepthModThree(x, y) == FloorMod(depth, 3) ==> !IsTile(x, y, depth))
    {
      if FloorMod(depth, 6) < 3 {
        DepthClassAtDepth(x, y, depth);
      } else if IsTile(x, y, depth) {
        NoDepthClassAtUpperDepths(x, y, depth);
      }
    }
  }

  /**
   * At depth 5 the list of class 2 holds column 0, row 0, which is not a
   * tile at depth 5, while column 1, row 0 is a tile at depth 5 without a
   * class.
   */
  lemma DepthFiveExample()
    ensures FloorMod(5, 3) == 2 && DepthModThree(0, 0) == 2 && !IsTile(0, 0, 5)
    ensures IsTile(1, 0, 5) && DepthModThree(1, 0) == -1
  {
    assert IsTile(0, 0, 2);
  }

  /**
   * Linked2DTile.toBlock: the block drawn at this tile for depth `depth`.
   * `pxy` is the tile's cached `toBlock_pxy` (getTilePXY(x, y) + 1); it is
   * an input because getTilePXY is not part of this model. The depth is
   * not checked against the tile's depth class.
   */
  function ToBlock(facing: BlockFace, y: int, depth: int, pxy: int): (r: Result<IntVector3>)
    ensures r.Ok? <==> IsDiagonal(facing)
    ensures !r.Ok? ==> r == Err(IllegalArgument)
    ensures r.Ok? ==> r.value.y == -FloorDiv(y, 3) - FloorDiv(depth, 3)
  {
    var dx := FloorDiv(depth, 3) + pxy;
    var dy := -FloorDiv(y, 3) - FloorDiv(depth, 3);
    var dz := dx - dy - depth;
    match facing
    case NorthEast => Ok(IntVector3(dx, dy, dz))
    case SouthWest => Ok(IntVector3(-dx, dy, -dz))
    case NorthWest => Ok(IntVector3(dz, dy, -dx))
    case SouthEast => Ok(IntVector3(-dz, dy, dx))
    case _ => Err(IllegalArgument)
  }

  /**
   * toBlock turns its north-east block exactly as screenTileToBlock does,
   * and in the north-east view the block satisfies z == x - y - depth.
   */
  lemma ToBlockOrientsLikeScreenTileToBlock(facing: BlockFace, y: int, depth: int, pxy: int)
    requires IsDiagonal(facing)
    ensures var ne := ToBlock(NorthEast, y, depth, pxy).value;
      ne.z == ne.x - ne.y - depth &&
      Some(ToBlock(facing, y, depth, pxy).value) == Orient(facing, ne)
  {
  }

  /** Three depths further back, the north-east block moves by (+1, -1, -1). */
  lemma ToBlockDepthStep(y: int, depth: int, pxy: int)
    ensures var a, b := ToBlock(NorthEast, y, depth, pxy).value, ToBlock(NorthEast, y, depth + 3, pxy).value;
      b == IntVector3(a.x + 1, a.y - 1, a.z - 1)
  {
    assert FloorDiv(depth + 3, 3) == FloorDiv(depth, 3) + 1;
  }
}
