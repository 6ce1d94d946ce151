/**
 * Sprite placement on the canvas for a zoom level (ZoomLevel.java): the
 * pixel column of a tile column and the pixel row of a tile depth.
 */
module ZoomLevels {
  /** The zoom levels of the renderer; the enum has a single level. */
  datatype ZoomLevel = Zoom4

  const Values: seq<ZoomLevel> := [Zoom4]

  /** Sprite width in pixels. */
  function Width(zoom: ZoomLevel): (w: int)
    ensures w > 0 && w % 2 == 0
  {
    match zoom
    case Zoom4 => 32
  }

  /** Sprite height in pixels. */
  function Height(zoom: ZoomLevel): (h: int)
    ensures h > Width(zoom)
  {
    match zoom
    case Zoom4 => 43
  }

  /** Horizontal draw offset: minus half a sprite width. */
  function OffsetX(zoom: ZoomLevel): (o: int)
    ensures 2 * o == -Width(zoom)
  {
    -(Width(zoom) / 2)
  }

  /** Vertical draw offset: minus one sprite width. */
  function OffsetZ(zoom: ZoomLevel): (o: int)
    ensures o == -Width(zoom)
  {
    -Width(zoom)
  }

  /** Java's integer `/` for a positive divisor: rounds toward zero. */
  function TruncDiv(a: int, b: int): (q: int)
    requires b > 0
    ensures a >= 0 ==> 0 <= a - q * b < b
    ensures a < 0 ==> -b < a - q * b <= 0
  {
    if a >= 0 then a / b else -((-a) / b)
  }

  /** The least integer at or above n / d. */
  function CeilDiv(n: int, d: int): (q: int)
    requires d > 0
    ensures q * d - d < n <= q * d
  {
    -((-n) / d)
  }

  /**
   * getDrawX: full sprite widths for every two columns and half a width for
   * an odd column. For the even sprite width this is half a width per
   * column, starting half a width left of the origin.
   */
  function DrawX(zoom: ZoomLevel, x: int): (px: int)
    ensures px == (Width(zoom) / 2) * (x - 1)
  {
    var w := Width(zoom);
    w * (x / 2) + (w / 2) * (x % 2) + OffsetX(zoom)
  }

  /**
   * getDrawZ: full sprite widths for every three depths (with Java's
   * truncating division) and the ceiling of a third of a width per
   * remaining depth. This is the ceiling of a third of a width per depth,
   * starting one width above the origin.
   */
  function DrawZ(zoom: ZoomLevel, z: int): (pz: int)
    ensures pz == CeilDiv(Width(zoom) * z, 3) - Width(zoom)
  {
    var w := Width(zoom);
    var div3 := TruncDiv(z, 3);
    var mod3 := z - 3 * div3;
    DrawZRemainder(w, div3, mod3);
    w * div3 + CeilDiv(mod3 * w, 3) + OffsetZ(zoom)
  }

  /** Splitting the depth into thirds and a signed remainder loses nothing. */
  lemma DrawZRemainder(w: int, div3: int, mod3: int)
    ensures w * div3 + CeilDiv(mod3 * w, 3) == CeilDiv(w * (3 * div3 + mod3), 3)
  {
    assert w * (3 * div3 + mod3) == 3 * (w * div3) + mod3 * w;
    CeilDivShift(w * div3, mod3 * w);
  }

  lemma CeilDivShift(k: int, m: int)
    ensures CeilDiv(3 * k + m, 3) == k + CeilDiv(m, 3)
  {
  }

  /** Two columns over is one full sprite width to the right. */
  lemma DrawXStep(zoom: ZoomLevel, x: int)
    ensures DrawX(zoom, x + 2) == DrawX(zoom, x) + Width(zoom)
    ensures DrawX(zoom, 0) == -(Width(zoom) / 2)
  {
  }

  /** Three depths down is one full sprite width down, and depth 0 is one width up. */
  lemma {:induction false} DrawZStep(zoom: ZoomLevel, z: int)
    ensures DrawZ(zoom, z + 3) == DrawZ(zoom, z) + Width(zoom)
    ensures DrawZ(zoom, 0) == -Width(zoom)
  {
    var w := Width(zoom);
    assert w * (z + 3) == 3 * w + w * z;
    CeilDivShift(w, w * z);
  }

  /** Canvas positions never go backwards as the tile coordinates grow. */
  lemma {:induction false} DrawMonotonic(zoom: ZoomLevel, a: int, b: int)
    requires a <= b
    ensures DrawX(zoom, a) <= DrawX(zoom, b)
    ensures DrawZ(zoom, a) <= DrawZ(zoom, b)
  {
    var w := Width(zoom);
    assert w * a <= w * b;
    CeilDivMonotonic(w * a, w * b);
  }

  lemma {:induction false} CeilDivMonotonic(m: int, n: int)
    requires m <= n
    ensures CeilDiv(m, 3) <= CeilDiv(n, 3)
  {
    var p, q := CeilDiv(m, 3), CeilDiv(n, 3);
    assert p * 3 - 3 < q * 3;
  }
}
