/**
 * The menu and zoom controls shared by MaplandsDisplay and TestFrameMap:
 * wrapping the selected menu button and stepping through the zoom levels.
 */
module ViewControls {
  import opened ZoomLevels

  /**
   * setMenuIndex's two loops: add the button count while the index is
   * negative, subtract it while the index is too large. The result is the
   * index modulo the button count.
   */
  method WrapIndex(index: int, n: int) returns (r: int)
    requires n > 0
    ensures 0 <= r < n
    ensures r == index % n
  {
    r := index;
    ghost var k := 0;
    while r < 0
      invariant r == index + k * n
      decreases -r
    {
      r, k := r + n, k + 1;
    }
    while r >= n
      invariant r >= 0 && r == index + k * n
      decreases r
    {
      r, k := r - n, k - 1;
    }
    ModUnique(index, k, n, r);
  }

  /** A value in [0, n) that differs from `index` by a multiple of `n` is `index % n`. */
  lemma {:induction false} ModUnique(index: int, k: int, n: int, r: int)
    requires n > 0 && 0 <= r < n && r == index + k * n
    ensures r == index % n
  {
    var q, m := index / n, index % n;
    assert index == q * n + m;
    assert r - m == (q + k) * n;
    MulSign(q + k, n);
  }

  lemma MulSign(c: int, n: int)
    requires n > 0
    ensures c >= 1 ==> c * n >= n
    ensures c <= -1 ==> c * n <= -n
  {
  }

  /** The menu selection after choosing button `index` of `n`: only that button is selected. */
  function Selection(n: nat, index: int): (s: seq<bool>)
    ensures |s| == n
    ensures forall i | 0 <= i < n :: s[i] <==> i == index
  {
    seq(n, i => i == index)
  }

  /** MathUtil.clamp: the value, moved into [lo, hi]. */
  function Clamp(value: int, lo: int, hi: int): (r: int)
    requires lo <= hi
    ensures lo <= r <= hi
    ensures lo <= value <= hi ==> r == value
    ensures value < lo ==> r == lo
    ensures value > hi ==> r == hi
  {
    if value < lo then lo else if value > hi then hi else value
  }

  /** The loop of zoom that finds the position of the current level among all levels. */
  method IndexOf<T(==)>(values: seq<T>, level: T) returns (i: nat)
    requires level in values
    ensures i < |values| && values[i] == level
    ensures forall j | 0 <= j < i :: values[j] != level
  {
    i := 0;
    while values[i] != level
      invariant i < |values|
      invariant forall j | 0 <= j < i :: values[j] != level
      decreases |values| - i
    {
      i := i + 1;
    }
  }

  /**
   * zoom(n): the level `n` steps from the current one, stopping at the
   * first and the last level.
   */
  method StepZoom(level: ZoomLevel, n: int) returns (r: ZoomLevel)
    ensures r in Values
    ensures exists i | 0 <= i < |Values| && Values[i] == level :: r == Values[Clamp(i + n, 0, |Values| - 1)]
  {
    var index := IndexOf(Values, level);
    index := Clamp(index + n, 0, |Values| - 1);
    r := Values[index];
  }
}
