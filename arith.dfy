/** Facts about Euclidean division and row-major flat indices.  The grid
    code divides by its (symbolic) width and height; these lemmas are
    proved once here so that the rest of the model never needs non-linear
    reasoning of its own. */
module Arith {

  lemma MulMonotone(a: int, b: int, c: int)
    requires a <= b && c >= 0
    ensures a * c <= b * c
  {
  }

  /** Division and remainder are determined by any decomposition
      `a == q * m + r` with `0 <= r < m`. */
  lemma DivModUnique(a: int, m: int, q: int, r: int)
    requires m > 0 && 0 <= r < m && a == q * m + r
    ensures a / m == q && a % m == r
  {
    var q', r' := a / m, a % m;
    assert a == q' * m + r';
    if q' < q {
      MulMonotone(q' + 1, q, m);
      assert false;
    } else if q' > q {
      MulMonotone(q + 1, q', m);
      assert false;
    }
  }

  /** A remainder never exceeds the non-negative number divided. */
  lemma ModAtMost(a: int, m: int)
    requires a >= 0 && m > 0
    ensures a % m <= a
  {
    MulMonotone(0, a / m, m);
  }

  /** The flat position `x + y * w` of a cell of a `w` by `h` grid lies in
      `[0, w * h)` and gives back its column and row. */
  lemma FlatIndex(x: int, y: int, w: int, h: int)
    requires 0 <= x < w && 0 <= y < h
    ensures 0 <= x + y * w < w * h
    ensures (x + y * w) % w == x && (x + y * w) / w == y
  {
    DivModUnique(x + y * w, w, y, x);
    MulMonotone(0, y, w);
    MulMonotone(y + 1, h, w);
  }

  /** Every flat position of a `w` by `h` grid splits into a column below
      `w` and a row below `h`. */
  lemma FlatSplit(k: int, w: int, h: int)
    requires 0 <= k < w * h && w > 0
    ensures 0 <= k % w < w && 0 <= k / w < h
    ensures k == k % w + (k / w) * w
  {
    if k / w >= h {
      MulMonotone(h, k / w, w);
      assert false;
    }
  }
}
