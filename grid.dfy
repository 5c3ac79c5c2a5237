// The grid numbering shared by assembly and the solvers: the interior point
// (i, j) of an n x m grid is unknown number idx = j * n + i.
module Grid {

  lemma {:induction false} MulAtLeast(a: int, n: int)
    requires a >= 1 && n >= 1
    ensures a * n >= n
  {
    if a > 1 {
      MulAtLeast(a - 1, n);
      assert a * n == (a - 1) * n + n;
    }
  }

  /** Division and remainder by n recover the coordinates of j * n + i. */
  lemma DivModUnique(x: int, n: int, j: int, i: int)
    requires n >= 1 && 0 <= i < n && x == j * n + i
    ensures x / n == j && x % n == i
  {
    var q, r := x / n, x % n;
    assert x == q * n + r;
    assert (j - q) * n == r - i;
    if j > q {
      MulAtLeast(j - q, n);
    } else if j < q {
      MulAtLeast(q - j, n);
    }
  }

  /** Grid row j holds the unknowns j * n .. j * n + n - 1. */
  lemma RowStart(n: int, m: int, j: int)
    requires 1 <= n && 0 <= j < m
    ensures 0 <= j * n && (j + 1) * n == j * n + n <= n * m
  {
    MulAtLeast(m - j, n);
    assert (m - j) * n == m * n - j * n;
  }

  /** The grid point (i, j) is an unknown of the n x m system and its index
      maps back to (i, j). */
  lemma Coordinates(n: int, m: int, i: int, j: int)
    requires 1 <= n && 0 <= i < n && 0 <= j < m
    ensures 0 <= j * n + i < n * m
    ensures (j * n + i) / n == j && (j * n + i) % n == i
    ensures (j * n + i + 1) % n == if i < n - 1 then i + 1 else 0
    ensures j * n + i >= n <==> j > 0
    ensures j * n + i + n < n * m <==> j < m - 1
  {
    RowStart(n, m, j);
    var start := j * n;
    DivModUnique(start + i, n, j, i);
    if i < n - 1 {
      DivModUnique(start + i + 1, n, j, i + 1);
    } else {
      assert start + i + 1 == (j + 1) * n;
      DivModUnique(start + i + 1, n, j + 1, 0);
    }
    if j > 0 {
      MulAtLeast(j, n);
    } else {
      assert start == 0;
    }
    if j < m - 1 {
      RowStart(n, m, j + 1);
    } else {
      assert start + n == n * m by {
        assert (m - 1) * n + n == m * n;
      }
    }
  }

  /** Every unknown of the n x m system is a grid point. */
  lemma Position(n: int, m: int, p: int)
    requires 1 <= n && 0 <= p < n * m
    ensures 0 <= p % n < n && 0 <= p / n < m
    ensures p == (p / n) * n + p % n
  {
  }

  /** The numbering is one-to-one: two grid points with the same index are
      the same point (Position shows that every index is a grid point). */
  lemma NumberingIsInjective(n: int, m: int, i1: int, j1: int, i2: int, j2: int)
    requires 1 <= n && 0 <= i1 < n && 0 <= j1 < m && 0 <= i2 < n && 0 <= j2 < m
    requires j1 * n + i1 == j2 * n + i2
    ensures i1 == i2 && j1 == j2
  {
    Coordinates(n, m, i1, j1);
    Coordinates(n, m, i2, j2);
  }
}
