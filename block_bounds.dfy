/**
 * MapBlockBounds.java: the box of world blocks that the tiles of a view can
 * show, used to decide quickly whether a changed block matters to a map.
 */
module BlockBounds {
  import opened Wrappers
  import opened MapUtil

  /** Tile `t` lies in the inclusive tile range `lo`..`hi`. */
  predicate InRange(t: IntVector3, lo: IntVector3, hi: IntVector3) {
    lo.x <= t.x <= hi.x && lo.y <= t.y <= hi.y && lo.z <= t.z <= hi.z
  }

  /** Tile `t` comes before the cursor `c` in the x, then y, then z loop order. */
  predicate Before(t: IntVector3, c: IntVector3) {
    t.x < c.x || (t.x == c.x && (t.y < c.y || (t.y == c.y && t.z < c.z)))
  }

  /** Block `b` lies in the inclusive box `min`..`max`. */
  predicate Within(b: IntVector3, min: IntVector3, max: IntVector3) {
    min.x <= b.x <= max.x && min.y <= b.y <= max.y && min.z <= b.z <= max.z
  }

  /** The block each tile shows in the view facing `facing`. */
  function Image(facing: BlockFace): IntVector3 -> Option<IntVector3> {
    t => ScreenTileToBlock(facing, t)
  }

  /** Some tile of the range shows a block in this view. */
  ghost predicate HasImage(img: IntVector3 -> Option<IntVector3>, lo: IntVector3, hi: IntVector3) {
    exists t :: InRange(t, lo, hi) && img(t).Some?
  }

  /**
   * Every bound of the box `min`..`max` is reached by the block of some tile
   * of the range, moved by `start`.
   */
  ghost predicate Attained(img: IntVector3 -> Option<IntVector3>, lo: IntVector3, hi: IntVector3, start: IntVector3,
                           min: IntVector3, max: IntVector3) {
    (exists t :: InRange(t, lo, hi) && img(t).Some? && img(t).value.x + start.x == min.x) &&
    (exists t :: InRange(t, lo, hi) && img(t).Some? && img(t).value.y + start.y == min.y) &&
    (exists t :: InRange(t, lo, hi) && img(t).Some? && img(t).value.z + start.z == min.z) &&
    (exists t :: InRange(t, lo, hi) && img(t).Some? && img(t).value.x + start.x == max.x) &&
    (exists t :: InRange(t, lo, hi) && img(t).Some? && img(t).value.y + start.y == max.y) &&
    (exists t :: InRange(t, lo, hi) && img(t).Some? && img(t).value.z + start.z == max.z)
  }

  /**
   * `min`..`max` is the box update computes for the range `lo`..`hi` and
   * the start block: it holds the moved block of every tile of the range
   * and each bound is reached, or it is the start block alone when no
   * tile of the range shows a block.
   */
  ghost predicate TightBox(img: IntVector3 -> Option<IntVector3>, lo: IntVector3, hi: IntVector3, start: IntVector3,
                           min: IntVector3, max: IntVector3) {
    min.x <= max.x && min.y <= max.y && min.z <= max.z &&
    (forall t | InRange(t, lo, hi) && img(t).Some? :: Within(Add(img(t).value, start), min, max)) &&
    (HasImage(img, lo, hi) ==> Attained(img, lo, hi, start, min, max)) &&
    (!HasImage(img, lo, hi) ==> min == start && max == start)
  }

  /** Tiles whose blocks reach each of the six bounds of a box. */
  datatype Witnesses = Witnesses(minX: IntVector3, minY: IntVector3, minZ: IntVector3,
                                 maxX: IntVector3, maxY: IntVector3, maxZ: IntVector3)

  /** Tile `t` is in range, already scanned before cursor `c`, and shows a block. */
  ghost predicate Seen(img: IntVector3 -> Option<IntVector3>, lo: IntVector3, hi: IntVector3, c: IntVector3, t: IntVector3) {
    InRange(t, lo, hi) && Before(t, c) && img(t).Some?
  }

  /**
   * The state of update's loops before the tile at cursor `c`: either no
   * tile so far showed a block, or the box holds every block shown so far
   * and each bound is the block of one of those tiles (the witnesses).
   */
  ghost predicate Scanned(img: IntVector3 -> Option<IntVector3>, lo: IntVector3, hi: IntVector3, c: IntVector3,
                          first: bool, min: IntVector3, max: IntVector3, w: Witnesses) {
    (first ==> forall t | InRange(t, lo, hi) && Before(t, c) :: img(t).None?) &&
    (!first ==>
      (forall t | InRange(t, lo, hi) && Before(t, c) && img(t).Some? :: Within(img(t).value, min, max)) &&
      Seen(img, lo, hi, c, w.minX) && img(w.minX).value.x == min.x &&
      Seen(img, lo, hi, c, w.minY) && img(w.minY).value.y == min.y &&
      Seen(img, lo, hi, c, w.minZ) && img(w.minZ).value.z == min.z &&
      Seen(img, lo, hi, c, w.maxX) && img(w.maxX).value.x == max.x &&
      Seen(img, lo, hi, c, w.maxY) && img(w.maxY).value.y == max.y &&
      Seen(img, lo, hi, c, w.maxZ) && img(w.maxZ).value.z == max.z)
  }

  class MapBlockBounds {
    var minX: int
    var minY: int
    var minZ: int
    var maxX: int
    var maxY: int
    var maxZ: int

    function Min(): IntVector3
      reads this
    {
      IntVector3(minX, minY, minZ)
    }

    function Max(): IntVector3
      reads this
    {
      IntVector3(maxX, maxY, maxZ)
    }

    /** A new bounds object is the single block at the origin. */
    constructor()
      ensures Min() == IntVector3(0, 0, 0) && Max() == IntVector3(0, 0, 0)
    {
      minX, minY, minZ := 0, 0, 0;
      maxX, maxY, maxZ := 0, 0, 0;
    }

    /** contains: the inclusive box test on all three axes. */
    predicate Contains(x: int, y: int, z: int): (r: bool)
      reads this
      ensures r <==> Within(IntVector3(x, y, z), Min(), Max())
    {
      x >= minX && x <= maxX &&
      y >= minY && y <= maxY &&
      z >= minZ && z <= maxZ
    }

    /**
     * update: the smallest box holding the block of every tile in the range
     * `lo`..`hi`, moved by the start block. With no such tile the box is the
     * start block alone.
     */
    method Update(start: IntVector3, facing: BlockFace, lo: IntVector3, hi: IntVector3)
      modifies this
      ensures minX <= maxX && minY <= maxY && minZ <= maxZ
      ensures forall t | InRange(t, lo, hi) && Image(facing)(t).Some? ::
        Within(Add(Image(facing)(t).value, start), Min(), Max())
      ensures HasImage(Image(facing), lo, hi) ==> Attained(Image(facing), lo, hi, start, Min(), Max())
      ensures !HasImage(Image(facing), lo, hi) ==> Min() == start && Max() == start
      ensures TightBox(Image(facing), lo, hi, start, Min(), Max())
    {
      UpdateFrom(start, Image(facing), lo, hi);
    }

    /** update for any map from tiles to the blocks they show. */
    method UpdateFrom(start: IntVector3, img: IntVector3 -> Option<IntVector3>, lo: IntVector3, hi: IntVector3)
      modifies this
      ensures minX <= maxX && minY <= maxY && minZ <= maxZ
      ensures forall t | InRange(t, lo, hi) && img(t).Some? :: Within(Add(img(t).value, start), Min(), Max())
      ensures HasImage(img, lo, hi) ==> Attained(img, lo, hi, start, Min(), Max())
      ensures !HasImage(img, lo, hi) ==> Min() == start && Max() == start
    {
      var found, min, max := ScanTiles(img, lo, hi);
      if !found {
        min, max := IntVector3(0, 0, 0), IntVector3(0, 0, 0);
      } else {
        ShiftedBox(img, lo, hi, min, max, start);
      }
      minX, minY, minZ := min.x + start.x, min.y + start.y, min.z + start.z;
      maxX, maxY, maxZ := max.x + start.x, max.y + start.y, max.z + start.z;
      assert Min() == Add(min, start) && Max() == Add(max, start);
    }
  }

  /** Moving a box and the blocks it holds by the same offset keeps them inside. */
  lemma ShiftedBox(img: IntVector3 -> Option<IntVector3>, lo: IntVector3, hi: IntVector3,
                   min: IntVector3, max: IntVector3, start: IntVector3)
    requires forall t | InRange(t, lo, hi) && img(t).Some? :: Within(img(t).value, min, max)
    ensures forall t | InRange(t, lo, hi) && img(t).Some? :: Within(Add(img(t).value, start), Add(min, start), Add(max, start))
  {
  }

  /**
   * The triple loop of update over the tile range, x outermost and z
   * innermost: whether any tile shows a block, and if so the smallest box
   * holding every block shown, each bound reached by some tile.
   */
  method ScanTiles(img: IntVector3 -> Option<IntVector3>, lo: IntVector3, hi: IntVector3)
    returns (found: bool, min: IntVector3, max: IntVector3)
    ensures found <==> HasImage(img, lo, hi)
    ensures found ==> min.x <= max.x && min.y <= max.y && min.z <= max.z
    ensures found ==> forall t | InRange(t, lo, hi) && img(t).Some? :: Within(img(t).value, min, max)
    ensures found ==> forall start :: Attained(img, lo, hi, start, Add(min, start), Add(max, start))
  {
    var isFirst := true;
    min, max := lo, lo;
    ghost var w := Witnesses(lo, lo, lo, lo, lo, lo);
    var mx := lo.x;
    while mx <= hi.x
      invariant lo.x <= mx
      invariant Scanned(img, lo, hi, IntVector3(mx, lo.y, lo.z), isFirst, min, max, w)
      decreases hi.x - mx
    {
      isFirst, min, max, w := ScanColumn(img, lo, hi, mx, isFirst, min, max, w);
      mx := mx + 1;
    }
    CompleteScan(img, lo, hi, IntVector3(mx, lo.y, lo.z), isFirst, min, max, w);
    found := !isFirst;
    if found {
      forall start {
        MovedBox(img, lo, hi, IntVector3(mx, lo.y, lo.z), start, min, max, w);
      }
    }
  }

  /** The middle loop of update: every row of column `mx`. */
  method ScanColumn(img: IntVector3 -> Option<IntVector3>, lo: IntVector3, hi: IntVector3, mx: int,
                    isFirst: bool, min: IntVector3, max: IntVector3, ghost w: Witnesses)
    returns (isFirst': bool, min': IntVector3, max': IntVector3, ghost w': Witnesses)
    requires lo.x <= mx <= hi.x
    requires Scanned(img, lo, hi, IntVector3(mx, lo.y, lo.z), isFirst, min, max, w)
    ensures Scanned(img, lo, hi, IntVector3(mx + 1, lo.y, lo.z), isFirst', min', max', w')
  {
    isFirst', min', max', w' := isFirst, min, max, w;
    var my := lo.y;
    while my <= hi.y
      invariant lo.y <= my
      invariant Scanned(img, lo, hi, IntVector3(mx, my, lo.z), isFirst', min', max', w')
      decreases hi.y - my
    {
      isFirst', min', max', w' := ScanRow(img, lo, hi, mx, my, isFirst', min', max', w');
      my := my + 1;
    }
    NextColumn(img, lo, hi, mx, my, isFirst', min', max', w');
  }

  /** The inner loop of update: every depth of column `mx`, row `my`. */
  method ScanRow(img: IntVector3 -> Option<IntVector3>, lo: IntVector3, hi: IntVector3, mx: int, my: int,
                 isFirst: bool, min: IntVector3, max: IntVector3, ghost w: Witnesses)
    returns (isFirst': bool, min': IntVector3, max': IntVector3, ghost w': Witnesses)
    requires lo.x <= mx <= hi.x && lo.y <= my <= hi.y
    requires Scanned(img, lo, hi, IntVector3(mx, my, lo.z), isFirst, min, max, w)
    ensures Scanned(img, lo, hi, IntVector3(mx, my + 1, lo.z), isFirst', min', max', w')
  {
    isFirst', min', max', w' := isFirst, min, max, w;
    var mz := lo.z;
    while mz <= hi.z
      invariant lo.z <= mz
      invariant Scanned(img, lo, hi, IntVector3(mx, my, mz), isFirst', min', max', w')
      decreases hi.z - mz
    {
      var t := IntVector3(mx, my, mz);
      var b := img(t);
      if b.Some? {
        var v := b.value;
        if isFirst' {
          IncludeFirst(img, lo, hi, t, min', max', w', v);
          w' := Witnesses(t, t, t, t, t, t);
          isFirst' := false;
          min', max' := v, v;
        } else {
          ghost var w'' := IncludeWiden(img, lo, hi, t, min', max', w', v);
          w' := w'';
          min', max' := LowerCorner(min', v), UpperCorner(max', v);
        }
      } else {
        NextTile(img, lo, hi, t, isFirst', min', max', w');
      }
      mz := mz + 1;
    }
    NextRow(img, lo, hi, mx, my, mz, isFirst', min', max', w');
  }

  /** The first tile that shows a block makes the box that block alone. */
  lemma IncludeFirst(img: IntVector3 -> Option<IntVector3>, lo: IntVector3, hi: IntVector3, c: IntVector3,
                     min: IntVector3, max: IntVector3, w: Witnesses, b: IntVector3)
    requires InRange(c, lo, hi) && img(c) == Some(b)
    requires Scanned(img, lo, hi, c, true, min, max, w)
    ensures Scanned(img, lo, hi, IntVector3(c.x, c.y, c.z + 1), false, b, b, Witnesses(c, c, c, c, c, c))
  {
    var c' := IntVector3(c.x, c.y, c.z + 1);
    assert forall t | InRange(t, lo, hi) && Before(t, c') && img(t).Some? :: t == c;
  }

  /** The lower corner of a box after taking in block `b`: each bound lowered to b's coordinate if below. */
  function LowerCorner(min: IntVector3, b: IntVector3): IntVector3 {
    IntVector3(if b.x < min.x then b.x else min.x,
               if b.y < min.y then b.y else min.y,
               if b.z < min.z then b.z else min.z)
  }

  /** The upper corner of a box after taking in block `b`. */
  function UpperCorner(max: IntVector3, b: IntVector3): IntVector3 {
    IntVector3(if b.x > max.x then b.x else max.x,
               if b.y > max.y then b.y else max.y,
               if b.z > max.z then b.z else max.z)
  }

  /**
   * A later tile that shows block `b` widens the box to take it in; the
   * witness of each bound that moved becomes that tile.
   */
  lemma IncludeWiden(img: IntVector3 -> Option<IntVector3>, lo: IntVector3, hi: IntVector3, c: IntVector3,
                     min: IntVector3, max: IntVector3, w: Witnesses, b: IntVector3)
    returns (w': Witnesses)
    requires InRange(c, lo, hi) && img(c) == Some(b)
    requires Scanned(img, lo, hi, c, false, min, max, w)
    ensures Scanned(img, lo, hi, IntVector3(c.x, c.y, c.z + 1), false, LowerCorner(min, b), UpperCorner(max, b), w')
  {
    var min', max' := LowerCorner(min, b), UpperCorner(max, b);
    w' := Witnesses(if b.x < min.x then c else w.minX,
                    if b.y < min.y then c else w.minY,
                    if b.z < min.z then c else w.minZ,
                    if b.x > max.x then c else w.maxX,
                    if b.y > max.y then c else w.maxY,
                    if b.z > max.z then c else w.maxZ);
    var c' := IntVector3(c.x, c.y, c.z + 1);
    forall t | InRange(t, lo, hi) && Before(t, c') && img(t).Some?
      ensures Within(img(t).value, min', max')
    {
      if t != c {
        assert Before(t, c);
      }
    }
  }

  /** A tile that shows no block leaves the scan state as it was. */
  lemma NextTile(img: IntVector3 -> Option<IntVector3>, lo: IntVector3, hi: IntVector3, c: IntVector3,
                 first: bool, min: IntVector3, max: IntVector3, w: Witnesses)
    requires InRange(c, lo, hi) && img(c).None?
    requires Scanned(img, lo, hi, c, first, min, max, w)
    ensures Scanned(img, lo, hi, IntVector3(c.x, c.y, c.z + 1), first, min, max, w)
  {
  }

  /** Past the last depth of a row, the scan moves to the next row. */
  lemma NextRow(img: IntVector3 -> Option<IntVector3>, lo: IntVector3, hi: IntVector3, mx: int, my: int, mz: int,
                first: bool, min: IntVector3, max: IntVector3, w: Witnesses)
    requires mz > hi.z
    requires Scanned(img, lo, hi, IntVector3(mx, my, mz), first, min, max, w)
    ensures Scanned(img, lo, hi, IntVector3(mx, my + 1, lo.z), first, min, max, w)
  {
  }

  /** Past the last row of a column, the scan moves to the next column. */
  lemma NextColumn(img: IntVector3 -> Option<IntVector3>, lo: IntVector3, hi: IntVector3, mx: int, my: int,
                   first: bool, min: IntVector3, max: IntVector3, w: Witnesses)
    requires my > hi.y
    requires Scanned(img, lo, hi, IntVector3(mx, my, lo.z), first, min, max, w)
    ensures Scanned(img, lo, hi, IntVector3(mx + 1, lo.y, lo.z), first, min, max, w)
  {
  }

  /** Past the last column, every tile of the range has been scanned. */
  lemma CompleteScan(img: IntVector3 -> Option<IntVector3>, lo: IntVector3, hi: IntVector3, c: IntVector3,
                     first: bool, min: IntVector3, max: IntVector3, w: Witnesses)
    requires c.x > hi.x
    requires Scanned(img, lo, hi, c, first, min, max, w)
    ensures first <==> !HasImage(img, lo, hi)
    ensures !first ==> min.x <= max.x && min.y <= max.y && min.z <= max.z
    ensures !first ==> forall t | InRange(t, lo, hi) && img(t).Some? ::
      Within(img(t).value, min, max)
  {
    if !first {
      assert InRange(w.minX, lo, hi) && img(w.minX).Some?;
    }
  }

  /** Moving the scanned box by the start block moves its witnesses' blocks with it. */
  lemma MovedBox(img: IntVector3 -> Option<IntVector3>, lo: IntVector3, hi: IntVector3, c: IntVector3,
                 start: IntVector3, min: IntVector3, max: IntVector3, w: Witnesses)
    requires Scanned(img, lo, hi, c, false, min, max, w)
    ensures Attained(img, lo, hi, start, Add(min, start), Add(max, start))
  {
    assert InRange(w.minX, lo, hi) && InRange(w.minY, lo, hi) && InRange(w.minZ, lo, hi);
    assert InRange(w.maxX, lo, hi) && InRange(w.maxY, lo, hi) && InRange(w.maxZ, lo, hi);
  }
}
