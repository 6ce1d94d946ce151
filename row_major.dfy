/**
 * Row-major layout of a rectangle of `w` columns: cell (row r, column c) is
 * stored at index `r * w + c`. Both the tile set and the renderer's
 * drawn-tiles buffer use this layout.
 */
module RowMajor {
  lemma MulNonNegative(a: int, b: int)
    requires a >= 0 && b >= 0
    ensures a * b >= 0
  {
  }

  /** A cell inside an `h` by `w` rectangle has an index inside the buffer. */
  lemma {:induction false} IndexInBounds(r: int, c: int, w: int, h: int)
    requires 0 <= r < h && 0 <= c < w
    ensures 0 <= r * w + c < h * w
  {
    MulNonNegative(r, w);
    MulNonNegative(h - r - 1, w);
    assert (h - r - 1) * w == h * w - r * w - w;
  }

  /** Distinct cells of a row-major layout have distinct indices. */
  lemma {:induction false} IndexUnique(r1: int, c1: int, r2: int, c2: int, w: int)
    requires 0 <= c1 < w && 0 <= c2 < w
    requires r1 * w + c1 == r2 * w + c2
    ensures r1 == r2 && c1 == c2
  {
    if r1 > r2 {
      MulNonNegative(r1 - r2 - 1, w);
      assert false;
    } else if r1 < r2 {
      MulNonNegative(r2 - r1 - 1, w);
      assert false;
    }
  }

  /** Every index of a buffer of `h * w` cells is the index of a cell. */
  lemma {:induction false} CellOfIndex(i: int, w: int, h: int)
    requires 0 <= i < h * w && w > 0
    ensures 0 <= i / w < h && 0 <= i % w < w && i == (i / w) * w + i % w
  {
    var r, c := i / w, i % w;
    assert i == r * w + c;
    if r < 0 {
      MulNonNegative(-r - 1, w);
      assert false;
    }
    if r >= h {
      MulNonNegative(r - h, w);
      assert false;
    }
  }
}
