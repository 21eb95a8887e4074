/** Scalar helpers shared by the whole model: C++ `static_cast<int>` on a
    double (truncation toward zero), `fabs` and `fmin`. */
module Numeric {

  /** `static_cast<int>(x)`: truncation toward zero (not Dafny's floor). */
  function Trunc(x: real): (r: int)
    ensures 0.0 <= x ==> r as real <= x < r as real + 1.0
    ensures x < 0.0 ==> r as real - 1.0 < x <= r as real
  {
    if 0.0 <= x then x.Floor else -((-x).Floor)
  }

  function Abs(x: real): (r: real)
    ensures 0.0 <= r && (r == x || r == -x)
  {
    if x < 0.0 then -x else x
  }

  function FMin(a: real, b: real): (r: real)
    ensures r <= a && r <= b && (r == a || r == b)
  {
    if a <= b then a else b
  }

  /** Truncation is monotone: it never reorders two inputs. */
  lemma TruncMonotone(x: real, y: real)
    requires x <= y
    ensures Trunc(x) <= Trunc(y)
  {
    if 0.0 <= x {
      assert x.Floor <= y.Floor;
    } else if 0.0 <= y {
      assert Trunc(x) <= 0;
    } else {
      assert (-y).Floor <= (-x).Floor;
    }
  }

  /** The integers are fixed points of truncation. */
  lemma TruncOfInt(n: int)
    ensures Trunc(n as real) == n
  {
  }

  /** Row-major indices split back into their row and column: the
      quotient of q n + r by n is q and the remainder is r. */
  lemma RowMajorDivMod(q: int, r: int, n: int)
    requires 0 <= q && 0 <= r < n
    ensures (q * n + r) / n == q && (q * n + r) % n == r
  {
    var k := q * n + r;
    var q', r' := k / n, k % n;
    assert k == q' * n + r' && 0 <= r' < n;
    assert (q - q') * n == r' - r;
    if q - q' >= 1 {
      AtLeastOnce(q - q', n);
    } else if q' - q >= 1 {
      AtLeastOnce(q' - q, n);
    }
  }

  /** Row q < m, column r < n of an m-by-n grid has a row-major index
      below m n. */
  lemma RowMajorInRange(q: int, r: int, n: int, m: int)
    requires 0 <= q < m && 0 <= r < n
    ensures 0 <= q * n + r < m * n
  {
    AtLeastOnce(m - q, n);
    assert (m - q) * n == m * n - q * n;
    assert 0 <= q * n;
  }

  lemma AtLeastOnce(d: int, n: int)
    requires 1 <= d && 0 < n
    ensures n <= d * n
  {
    assert d * n == (d - 1) * n + n;
    assert 0 <= (d - 1) * n;
  }
}
