/**
 * Isometric tile geometry of the map renderer (MapUtil.java).
 *
 * A tile is addressed by (x, y, z): x is the column on the map, y the row and
 * z the depth. Only one depth in six is a real tile for a given column and
 * row, and a real tile shows exactly one world block: the block is found by
 * floor divisions and then turned to the facing of the view.
 */
module MapUtil {
  import opened Wrappers

  datatype IntVector3 = IntVector3(x: int, y: int, z: int)

  /** Component-wise sum: a block `b` relative to the block `a`. */
  function Add(a: IntVector3, b: IntVector3): IntVector3 {
    IntVector3(a.x + b.x, a.y + b.y, a.z + b.z)
  }

  /** Bukkit's BlockFace; only the four diagonals are views of the map. */
  datatype BlockFace =
    | North | East | South | West | Up | Down
    | NorthEast | NorthWest | SouthEast | SouthWest
    | WestNorthWest | NorthNorthWest | NorthNorthEast | EastNorthEast
    | EastSouthEast | SouthSouthEast | SouthSouthWest | WestSouthWest
    | Self

  predicate IsDiagonal(f: BlockFace) {
    f == NorthEast || f == SouthWest || f == NorthWest || f == SouthEast
  }

  /** Java's Math.floorDiv for a positive divisor: rounds toward minus infinity. */
  function FloorDiv(a: int, b: int): (q: int)
    requires b > 0
    ensures q * b <= a < q * b + b
  {
    a / b
  }

  /** Java's Math.floorMod for a positive divisor: never negative. */
  function FloorMod(a: int, b: int): (r: int)
    requires b > 0
    ensures 0 <= r < b
    ensures a == FloorDiv(a, b) * b + r
  {
    a % b
  }

  /** Whether (tx, ty, tz) is a tile that shows a block. */
  predicate IsTile(tx: int, ty: int, tz: int) {
    FloorMod(tx * 3 + ty * 2 - tz, 6) == 4
  }

  /**
   * The tiles form a lattice: column and depth have the same parity, and
   * the depth is one less than twice the row modulo 3.
   */
  lemma {:induction false} SplitResidue(tx: int, ty: int, tz: int)
    ensures IsTile(tx, ty, tz) <==> FloorMod(tx - tz, 2) == 0 && FloorMod(2 * ty - tz, 3) == 1
  {
    var n := tx * 3 + ty * 2 - tz;
    var q, r := n / 6, n % 6;
    assert tx - tz == 2 * (3 * q - tx - ty) + r;
    assert 2 * ty - tz == 3 * (2 * q - tx) + r;
    RemainderTwo(tx - tz, 3 * q - tx - ty, r);
    RemainderThree(2 * ty - tz, 2 * q - tx, r);
  }

  lemma RemainderTwo(n: int, q: int, r: int)
    requires 0 <= r < 6 && n == 2 * q + r
    ensures n % 2 == r % 2
  {
    assert n == 2 * (q + r / 2) + r % 2;
  }

  lemma RemainderThree(n: int, q: int, r: int)
    requires 0 <= r < 6 && n == 3 * q + r
    ensures n % 3 == r % 3
  {
    assert n == 3 * (q + r / 3) + r % 3;
  }

  /**
   * Along one column and row, the tiles are exactly the depths of one
   * residue class modulo 6.
   */
  lemma {:induction false} TileDepthResidue(tx: int, ty: int, tz: int)
    ensures IsTile(tx, ty, tz) <==> FloorMod(tz, 6) == FloorMod(tx * 3 + ty * 2 + 2, 6)
  {
    var a := tx * 3 + ty * 2;
    var q1, r1 := (a - tz) / 6, (a - tz) % 6;
    var q2, r2 := tz / 6, tz % 6;
    var q3, r3 := (a + 2) / 6, (a + 2) % 6;
    assert a - tz == q1 * 6 + r1 && tz == q2 * 6 + r2 && a + 2 == q3 * 6 + r3;
    if r1 == 4 {
      // a + 2 == tz + 6 * (q1 + 1), so a + 2 and tz leave the same remainder
      assert a + 2 == q2 * 6 + r2 + (q1 + 1) * 6;
      SameRemainder(a + 2, q2 + q1 + 1, r2);
    }
    if r2 == r3 {
      assert a - tz == (q3 - q2) * 6 - 2;
      assert a - tz == (q3 - q2 - 1) * 6 + 4;
      SameRemainder(a - tz, q3 - q2 - 1, 4);
    }
  }

  /** The remainder of `q * 6 + r` is `r` whenever `0 <= r < 6`. */
  lemma SameRemainder(n: int, q: int, r: int)
    requires 0 <= r < 6 && n == q * 6 + r
    ensures n % 6 == r && n / 6 == q
  {
  }

  /** Two tiles in the same column and row are a multiple of six depths apart. */
  lemma TilesOfOneColumnRowAreSixApart(tx: int, ty: int, z1: int, z2: int)
    requires IsTile(tx, ty, z1) && IsTile(tx, ty, z2)
    ensures FloorMod(z1 - z2, 6) == 0
  {
    TileDepthResidue(tx, ty, z1);
    TileDepthResidue(tx, ty, z2);
    var q1, q2 := z1 / 6, z2 / 6;
    assert z1 - z2 == (q1 - q2) * 6 + (z1 % 6 - z2 % 6);
    SameRemainder(z1 - z2, q1 - q2, 0);
  }

  /**
   * The block shown by tile `p` when the view faces north-east: the `dx`,
   * `dy`, `dz` of screenTileToBlock after the move to the centre block.
   */
  function CenterBlock(p: IntVector3): (b: IntVector3)
    ensures b.y == -FloorDiv(p.z, 3) - FloorDiv(p.y, 3)
    ensures b.z == b.x - b.y - p.y
  {
    var dxzFact := if FloorMod(p.x, 2) == 1 then FloorDiv(p.z + 2, 6) else FloorDiv(p.z + 5, 6);
    var dx := FloorDiv(p.y, 3) + FloorDiv(p.x, 2) - dxzFact;
    var dy := -FloorDiv(p.z, 3) - FloorDiv(p.y, 3);
    var dz := dx - dy - p.y;
    IntVector3(dx + 1, dy, dz + 1)
  }

  /** A quarter turn about the vertical axis. */
  function QuarterTurn(v: IntVector3): IntVector3 {
    IntVector3(v.z, v.y, -v.x)
  }

  /**
   * Turns a north-east block offset to the view's facing; no block for a
   * facing that is not one of the four diagonals. The four views are the
   * four quarter turns of the north-east view, and the height is kept.
   */
  function Orient(facing: BlockFace, b: IntVector3): (r: Option<IntVector3>)
    ensures r.Some? <==> IsDiagonal(facing)
    ensures r.Some? ==> r.value.y == b.y
    ensures facing == NorthEast ==> r == Some(b)
    ensures facing == NorthWest ==> r == Some(QuarterTurn(b))
    ensures facing == SouthWest ==> r == Some(QuarterTurn(QuarterTurn(b)))
    ensures facing == SouthEast ==> r == Some(QuarterTurn(QuarterTurn(QuarterTurn(b))))
  {
    match facing
    case NorthEast => Some(b)
    case SouthWest => Some(IntVector3(-b.x, b.y, -b.z))
    case NorthWest => Some(IntVector3(b.z, b.y, -b.x))
    case SouthEast => Some(IntVector3(-b.z, b.y, b.x))
    case _ => None
  }

  /** Four quarter turns make a full turn, so the views are a rotation group. */
  lemma FullTurn(v: IntVector3)
    ensures QuarterTurn(QuarterTurn(QuarterTurn(QuarterTurn(v)))) == v
  {
  }

  /** screenTileToBlock: the block, relative to the start block, drawn at tile `p`. */
  function ScreenTileToBlock(facing: BlockFace, p: IntVector3): (r: Option<IntVector3>)
    ensures r.Some? <==> IsTile(p.x, p.y, p.z) && IsDiagonal(facing)
    ensures r.Some? ==> r.value.y == -FloorDiv(p.z, 3) - FloorDiv(p.y, 3)
  {
    if !IsTile(p.x, p.y, p.z) then None else Orient(facing, CenterBlock(p))
  }

  /**
   * The tile lattice maps onto the block lattice by translations: two
   * columns over is one block along x and z, three rows down one block up
   * along x and down along y and z, six depths back one block down along x
   * and z and two down along y.
   */
  lemma {:induction false} CenterBlockTranslations(p: IntVector3)
    ensures CenterBlock(IntVector3(p.x + 2, p.y, p.z)) == IntVector3(CenterBlock(p).x + 1, CenterBlock(p).y, CenterBlock(p).z + 1)
    ensures CenterBlock(IntVector3(p.x, p.y + 3, p.z)) == IntVector3(CenterBlock(p).x + 1, CenterBlock(p).y - 1, CenterBlock(p).z - 1)
    ensures CenterBlock(IntVector3(p.x, p.y, p.z + 6)) == IntVector3(CenterBlock(p).x - 1, CenterBlock(p).y - 2, CenterBlock(p).z + 1)
  {
    assert FloorDiv(p.x + 2, 2) == FloorDiv(p.x, 2) + 1 && FloorMod(p.x + 2, 2) == FloorMod(p.x, 2);
    assert FloorDiv(p.y + 3, 3) == FloorDiv(p.y, 3) + 1;
    assert FloorDiv(p.z + 6, 3) == FloorDiv(p.z, 3) + 2;
    assert FloorDiv(p.z + 8, 6) == FloorDiv(p.z + 2, 6) + 1;
    assert FloorDiv(p.z + 11, 6) == FloorDiv(p.z + 5, 6) + 1;
  }

  /** Translating a tile by a lattice step keeps it a tile. */
  lemma TileTranslations(tx: int, ty: int, tz: int)
    ensures IsTile(tx, ty, tz) <==> IsTile(tx + 2, ty, tz)
    ensures IsTile(tx, ty, tz) <==> IsTile(tx, ty + 3, tz)
    ensures IsTile(tx, ty, tz) <==> IsTile(tx, ty, tz + 6)
  {
    var a := tx * 3 + ty * 2 - tz;
    assert (tx + 2) * 3 + ty * 2 - tz == a + 6;
    assert tx * 3 + (ty + 3) * 2 - tz == a + 6;
    assert tx * 3 + ty * 2 - (tz + 6) == a - 6;
  }

  /** No two tiles show the same block in the north-east view. */
  lemma {:induction false} CenterBlockInjective(p: IntVector3, q: IntVector3)
    requires IsTile(p.x, p.y, p.z) && IsTile(q.x, q.y, q.z)
    requires CenterBlock(p) == CenterBlock(q)
    ensures p == q
  {
    var b := CenterBlock(p);
    // the row is recovered from the block
    assert p.y == b.x - b.y - b.z && q.y == b.x - b.y - b.z;
    // then the depth divided by three
    assert p.z / 3 == q.z / 3;
    var c := p.z / 3;
    var ep, eq := p.z % 3, q.z % 3;
    var bp, bq := p.x % 2, q.x % 2;
    TileShape(p, c, ep, bp);
    TileShape(q, c, eq, bq);
    // the depth remainder is fixed by the row, the column parity by the depth
    assert ep == eq;
    assert bp == bq;
    assert p.z == q.z;
    assert p.x / 2 == q.x / 2;
  }

  /**
   * For a tile with depth `3c + e` and column parity `b`: the depth
   * remainder is determined by the row modulo 3, and the parity by `c + e`.
   */
  lemma {:induction false} TileShape(p: IntVector3, c: int, e: int, b: int)
    requires IsTile(p.x, p.y, p.z)
    requires c == p.z / 3 && e == p.z % 3 && b == p.x % 2
    ensures e == (2 * p.y + 2) % 3
    ensures b == (c + e) % 2
  {
    var m := (p.x * 3 + p.y * 2 - p.z) / 6;
    TileRemainders(p.x, p.y, p.z, p.x / 2, b, c, e, m);
  }

  /** TileShape on the quotients and remainders of the tile's coordinates. */
  lemma TileRemainders(x: int, y: int, z: int, a: int, b: int, c: int, e: int, m: int)
    requires x == 2 * a + b && 0 <= b < 2 && z == 3 * c + e && 0 <= e < 3
    requires x * 3 + y * 2 - z == m * 6 + 4
    ensures e == (2 * y + 2) % 3
    ensures b == (c + e) % 2
  {
    assert 2 * y + 2 == (2 * m + 2 - 2 * a - b + c) * 3 + e;
    SameRemainder3(2 * y + 2, 2 * m + 2 - 2 * a - b + c, e);
    var k := b - c - 3 * m - 2 + 3 * a + y;
    assert c + e == 2 * k + b;
    SameRemainder2(c + e, 2 * k, b);
  }

  lemma SameRemainder3(n: int, q: int, r: int)
    requires 0 <= r < 3 && n == q * 3 + r
    ensures n % 3 == r
  {
  }

  lemma SameRemainder2(n: int, m: int, r: int)
    requires 0 <= r < 2 && n == m + r && m % 2 == 0
    ensures n % 2 == r
  {
  }

  /** No two tiles show the same block, whatever the view's facing. */
  lemma ScreenTileToBlockInjective(facing: BlockFace, p: IntVector3, q: IntVector3)
    requires ScreenTileToBlock(facing, p).Some? && ScreenTileToBlock(facing, p) == ScreenTileToBlock(facing, q)
    ensures p == q
  {
    CenterBlockInjective(p, q);
  }
}
