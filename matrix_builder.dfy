// Assembly of the 5-point discrete Laplacian -Δu = f on the interior points
// of an n x m grid (unknown idx = j * n + i), as a dense matrix, as a CDS
// matrix, and the right-hand side with the Dirichlet data folded in.
module MatrixBuilder {
  import opened Storage
  import opened Grid
  import opened Sweeps

  /** The operator entry between unknowns p and q, stated on grid
      coordinates: 2(valX + valY) on the diagonal, -valX between horizontal
      neighbours of one grid row, -valY between vertical neighbours of one
      grid column, 0 elsewhere. */
  function Stencil(n: int, valX: real, valY: real, p: int, q: int): real
    requires 1 <= n
  {
    var pi, pj, qi, qj := p % n, p / n, q % n, q / n;
    if p == q then 2.0 * (valX + valY)
    else if pj == qj && (qi == pi + 1 || pi == qi + 1) then -valX
    else if pi == qi && (qj == pj + 1 || pj == qj + 1) then -valY
    else 0.0
  }

  /** The link to the next unknown: a horizontal link unless p + 1 starts a
      new grid row; with n == 1 it is the vertical link. */
  lemma StencilNext(n: int, valX: real, valY: real, p: int)
    requires 1 <= n
    ensures Stencil(n, valX, valY, p, p + 1) == if (p + 1) % n != 0 then -valX else if n == 1 then -valY else 0.0
  {
    var pi, pj := p % n, p / n;
    if pi + 1 < n {
      DivModUnique(p + 1, n, pj, pi + 1);
    } else {
      DivModUnique(p + 1, n, pj + 1, 0);
    }
  }

  /** The link to the previous unknown: a horizontal link unless p starts a
      grid row; with n == 1 it is the vertical link. */
  lemma StencilPrevious(n: int, valX: real, valY: real, p: int)
    requires 1 <= n
    ensures Stencil(n, valX, valY, p, p - 1) == if p % n != 0 then -valX else if n == 1 then -valY else 0.0
  {
    var pi, pj := p % n, p / n;
    if pi > 0 {
      DivModUnique(p - 1, n, pj, pi - 1);
    } else {
      DivModUnique(p - 1, n, pj - 1, n - 1);
    }
  }

  /** The unknowns n apart are vertical neighbours. */
  lemma StencilVertical(n: int, valX: real, valY: real, p: int)
    requires 1 <= n
    ensures Stencil(n, valX, valY, p, p + n) == -valY
    ensures Stencil(n, valX, valY, p, p - n) == -valY
  {
    var pi, pj := p % n, p / n;
    DivModUnique(p + n, n, pj + 1, pi);
    DivModUnique(p - n, n, pj - 1, pi);
  }

  /** Off the five diagonals the operator is zero. */
  lemma StencilOffBand(n: int, valX: real, valY: real, p: int, q: int)
    requires 1 <= n
    ensures q != p && q != p + 1 && q != p - 1 && q != p + n && q != p - n ==> Stencil(n, valX, valY, p, q) == 0.0
  {
    var pi, pj, qi, qj := p % n, p / n, q % n, q / n;
    assert p == pj * n + pi;
    assert q == qj * n + qi;
    if pj == qj {
      assert q - p == qi - pi;
    }
    if pi == qi && qj == pj + 1 {
      assert q == (pj + 1) * n + pi;
    }
    if pi == qi && pj == qj + 1 {
      assert p == (qj + 1) * n + qi;
    }
  }

  /** Row p of the operator, read by index offsets. */
  lemma StencilRow(n: int, valX: real, valY: real, p: int)
    requires 1 <= n
    ensures Stencil(n, valX, valY, p, p) == 2.0 * (valX + valY)
    ensures Stencil(n, valX, valY, p, p + 1) == if (p + 1) % n != 0 then -valX else if n == 1 then -valY else 0.0
    ensures Stencil(n, valX, valY, p, p - 1) == if p % n != 0 then -valX else if n == 1 then -valY else 0.0
    ensures Stencil(n, valX, valY, p, p + n) == -valY && Stencil(n, valX, valY, p, p - n) == -valY
    ensures forall q :: q != p && q != p + 1 && q != p - 1 && q != p + n && q != p - n ==> Stencil(n, valX, valY, p, q) == 0.0
  {
    StencilNext(n, valX, valY, p);
    StencilPrevious(n, valX, valY, p);
    StencilVertical(n, valX, valY, p);
    forall q | q != p && q != p + 1 && q != p - 1 && q != p + n && q != p - n
      ensures Stencil(n, valX, valY, p, q) == 0.0
    {
      StencilOffBand(n, valX, valY, p, q);
    }
  }

  /** The operator as the assembly loops see it, by index offsets: the +-1
      links are cut where p + 1 or p starts a grid row. */
  function BandEntry(n: int, valX: real, valY: real, p: int, q: int): real
    requires 1 <= n
  {
    if q == p then 2.0 * (valX + valY)
    else if q == p + 1 && (p + 1) % n != 0 then -valX
    else if q == p - 1 && p % n != 0 then -valX
    else if q == p + n || q == p - n then -valY
    else 0.0
  }

  lemma BandEntryIsStencil(n: int, valX: real, valY: real, p: int, q: int)
    requires 1 <= n
    ensures BandEntry(n, valX, valY, p, q) == Stencil(n, valX, valY, p, q)
  {
    StencilRow(n, valX, valY, p);
  }

  /** Row j * n + i of the operator by grid position: the diagonal, and the
      links to the neighbours (i -+ 1, j) and (i, j -+ 1) inside the grid. */
  lemma GridRowEntry(n: int, m: int, valX: real, valY: real, i: int, j: int, q: int)
    requires 1 <= n && 0 <= i < n && 0 <= j < m && 0 <= q < n * m
    ensures var idx := j * n + i;
      BandEntry(n, valX, valY, idx, q)
      == if q == idx then 2.0 * (valX + valY)
         else if q == idx - 1 && i > 0 then -valX
         else if q == idx + 1 && i < n - 1 then -valX
         else if q == idx - n && j > 0 then -valY
         else if q == idx + n && j < m - 1 then -valY
         else 0.0
  {
    Coordinates(n, m, i, j);
  }

  /** The CDS matrix holds exactly the operator on the n x m grid. */
  ghost predicate IsLaplacian(A: Cds, n: int, m: int, valX: real, valY: real)
    reads A.Repr()
  {
    && A.Valid() && 1 <= n && 1 <= m && A.size == n * m && A.n == n
    && forall p, q :: 0 <= p < A.size && 0 <= q < A.size ==> A.Get(p, q) == Stencil(n, valX, valY, p, q)
  }

  /** The dense matrix holds exactly the operator on the n x m grid. */
  ghost predicate IsDenseLaplacian(A: array2<real>, n: int, m: int, valX: real, valY: real)
    reads A
  {
    && 1 <= n && 1 <= m && A.Length0 == n * m && A.Length1 == n * m
    && forall p, q :: 0 <= p < n * m && 0 <= q < n * m ==> A[p, q] == Stencil(n, valX, valY, p, q)
  }

  /** Dense assembly: grid row by grid row, each point gets its diagonal and
      the links to the neighbours that are still inside the grid. */
  method BuildDenseA(n: int, m: int, l: real, h: real) returns (A: array2<real>)
    requires 1 <= n && 1 <= m && l != 0.0 && h != 0.0
    ensures fresh(A)
    ensures IsDenseLaplacian(A, n, m, InverseSquare(l), InverseSquare(h))
  {
    var size := n * m;
    A := new real[size, size]((_, _) => 0.0);
    var valX := InverseSquare(l);
    var valY := InverseSquare(h);
    for j := 0 to m
      invariant forall p, q :: 0 <= p < size && 0 <= q < size ==> A[p, q] == if p < j * n then BandEntry(n, valX, valY, p, q) else 0.0
    {
      RowStart(n, m, j);
      FillGridRow(A, n, m, size, valX, valY, j, j * n);
    }
    DenseBandIsLaplacian(A, n, m, valX, valY);
  }

  /** A dense matrix filled with the band entries holds the operator. */
  lemma DenseBandIsLaplacian(A: array2<real>, n: int, m: int, valX: real, valY: real)
    requires 1 <= n && 1 <= m && A.Length0 == n * m && A.Length1 == n * m
    requires forall p, q :: 0 <= p < n * m && 0 <= q < n * m ==> A[p, q] == BandEntry(n, valX, valY, p, q)
    ensures IsDenseLaplacian(A, n, m, valX, valY)
  {
    forall p, q | 0 <= p < n * m && 0 <= q < n * m
      ensures A[p, q] == Stencil(n, valX, valY, p, q)
    {
      BandEntryIsStencil(n, valX, valY, p, q);
    }
  }

  /** The inner assembly loop for grid row j, whose unknowns start at
      rowStart: fills rows rowStart .. rowStart + n - 1. */
  method FillGridRow(A: array2<real>, n: int, m: int, size: int, valX: real, valY: real, j: int, rowStart: int)
    requires 1 <= n && 0 <= j < m && size == n * m && rowStart == j * n && 0 <= rowStart && rowStart + n <= size
    requires A.Length0 == size && A.Length1 == size
    requires forall p, q :: 0 <= p < size && 0 <= q < size ==> A[p, q] == if p < rowStart then BandEntry(n, valX, valY, p, q) else 0.0
    modifies A
    ensures forall p, q :: 0 <= p < size && 0 <= q < size ==> A[p, q] == if p < rowStart + n then BandEntry(n, valX, valY, p, q) else 0.0
  {
    for i := 0 to n
      invariant forall p, q :: 0 <= p < size && 0 <= q < size ==> A[p, q] == if p < rowStart + i then BandEntry(n, valX, valY, p, q) else 0.0
    {
      FillDensePoint(A, n, m, size, valX, valY, i, j, rowStart + i);
    }
  }

  /** The body of the dense assembly loop for grid point (i, j), unknown
      idx: fills row idx, which was still zero, and leaves every other row
      alone. */
  method FillDensePoint(A: array2<real>, n: int, m: int, size: int, valX: real, valY: real, i: int, j: int, idx: int)
    requires 1 <= n && 0 <= i < n && 0 <= j < m && size == n * m && idx == j * n + i && 0 <= idx < size
    requires A.Length0 == size && A.Length1 == size
    requires forall q :: 0 <= q < size ==> A[idx, q] == 0.0
    modifies A
    ensures forall q :: 0 <= q < size ==> A[idx, q] == BandEntry(n, valX, valY, idx, q)
    ensures forall p, q :: 0 <= p < size && 0 <= q < size && p != idx ==> A[p, q] == old(A[p, q])
  {
    Coordinates(n, m, i, j);
    A[idx, idx] := 2.0 * (valX + valY);
    if i > 0 {
      A[idx, idx - 1] := -valX;
    }
    if i < n - 1 {
      A[idx, idx + 1] := -valX;
    }
    if j > 0 {
      A[idx, idx - n] := -valY;
    }
    if j < m - 1 {
      A[idx, idx + n] := -valY;
    }
    forall q | 0 <= q < size
      ensures A[idx, q] == BandEntry(n, valX, valY, idx, q)
    {
      GridRowEntry(n, m, valX, valY, i, j, q);
    }
  }

  /** Every write the CDS assembly issues for row i lands on a stored
      diagonal, so none of its `set` calls is refused. */
  lemma AssemblyWritesAreStored(n: int, m: int, i: int, c: int)
    requires 1 <= n && 1 <= m && 0 <= i < n * m
    requires || c == i
             || (c == i + 1 && i + 1 < n * m && (i + 1) % n != 0)
             || (c == i - 1 && i - 1 >= 0 && i % n != 0)
             || (c == i + n && i + n < n * m)
             || (c == i - n && i - n >= 0)
    ensures SlotInBounds(n * m, n, i, c) && BandOf(n * m, n, i, c) != Outside
  {
  }

  /** CDS assembly: one pass over the unknowns, setting the diagonal and the
      links whose partner lies in the same grid row (+-1) or column (+-n). */
  method BuildCdsA(n: int, m: int, l: real, h: real) returns (A: Cds)
    requires 1 <= n && 1 <= m && l != 0.0 && h != 0.0
    ensures fresh(A.Repr())
    ensures IsLaplacian(A, n, m, InverseSquare(l), InverseSquare(h))
  {
    var size := n * m;
    MulAtLeast(m, n);
    A := new Cds(size, n);
    var valX := InverseSquare(l);
    var valY := InverseSquare(h);
    for i := 0 to size
      invariant A.Valid() && A.size == size && A.n == n
      invariant forall p, q :: 0 <= p < size && 0 <= q < size ==> A.Get(p, q) == if p < i then BandEntry(n, valX, valY, p, q) else 0.0
    {
      FillCdsRow(A, n, m, valX, valY, i);
    }
    CdsBandIsLaplacian(A, n, m, valX, valY);
  }

  /** A CDS matrix filled with the band entries holds the operator. */
  lemma CdsBandIsLaplacian(A: Cds, n: int, m: int, valX: real, valY: real)
    requires A.Valid() && 1 <= n && 1 <= m && A.size == n * m && A.n == n
    requires forall p, q :: 0 <= p < A.size && 0 <= q < A.size ==> A.Get(p, q) == BandEntry(n, valX, valY, p, q)
    ensures IsLaplacian(A, n, m, valX, valY)
  {
    forall p, q | 0 <= p < A.size && 0 <= q < A.size
      ensures A.Get(p, q) == Stencil(n, valX, valY, p, q)
    {
      BandEntryIsStencil(n, valX, valY, p, q);
    }
  }

  /** The body of the CDS assembly loop for unknown i: sets the diagonal and
      the links that stay inside the grid, each accepted by `set`, in row i,
      which was still zero; every other row is left alone. */
  method FillCdsRow(A: Cds, n: int, m: int, valX: real, valY: real, i: int)
    requires A.Valid() && 1 <= n && 1 <= m && A.size == n * m && A.n == n && 0 <= i < A.size
    requires forall q :: 0 <= q < A.size ==> A.Get(i, q) == 0.0
    modifies A.Repr()
    ensures A.Valid()
    ensures forall q :: 0 <= q < A.size ==> A.Get(i, q) == BandEntry(n, valX, valY, i, q)
    ensures forall p, q :: 0 <= p < A.size && 0 <= q < A.size && p != i ==> A.Get(p, q) == old(A.Get(p, q))
  {
    var size := A.size;
    var outcome := A.Set(i, i, 2.0 * (valX + valY));
    assert outcome == Ok;
    if i + 1 < size && (i + 1) % n != 0 {
      outcome := A.Set(i, i + 1, -valX);
      assert outcome == Ok;
    }
    if i - 1 >= 0 && i % n != 0 {
      outcome := A.Set(i, i - 1, -valX);
      assert outcome == Ok;
    }
    if i + n < size {
      outcome := A.Set(i, i + n, -valY);
      assert outcome == Ok;
    }
    if i - n >= 0 {
      outcome := A.Set(i, i - n, -valY);
      assert outcome == Ok;
    }
  }

  /** The operator on the n x m grid, as rows. */
  predicate IsLaplacianMatrix(M: seq<seq<real>>, n: int, m: int, valX: real, valY: real)
  {
    && 1 <= n && 1 <= m && |M| == n * m && Square(M)
    && forall p, q :: 0 <= p < n * m && 0 <= q < n * m ==> M[p][q] == Stencil(n, valX, valY, p, q)
  }

  /** The rows `get` reads from an assembled CDS matrix are the operator. */
  lemma CdsLaplacianRows(A: Cds, M: seq<seq<real>>, n: int, m: int, valX: real, valY: real)
    requires IsLaplacian(A, n, m, valX, valY) && A.HoldsRows(M)
    ensures IsLaplacianMatrix(M, n, m, valX, valY)
  {
  }

  /** The rows of an assembled dense matrix are the operator. */
  lemma DenseLaplacianRows(D: array2<real>, M: seq<seq<real>>, n: int, m: int, valX: real, valY: real)
    requires IsDenseLaplacian(D, n, m, valX, valY) && DenseHolds(D, M)
    ensures IsLaplacianMatrix(M, n, m, valX, valY)
  {
  }

  /** The CDS and the dense assembly of the same grid hold the same matrix:
      `get(r, c)` of the one is entry [r][c] of the other. */
  lemma BuildsAgree(C: Cds, D: array2<real>, n: int, m: int, valX: real, valY: real)
    requires IsLaplacian(C, n, m, valX, valY) && IsDenseLaplacian(D, n, m, valX, valY)
    ensures C.size == D.Length0 == D.Length1
    ensures forall r, c :: 0 <= r < C.size && 0 <= c < C.size ==> C.Get(r, c) == D[r, c]
  {
  }

  /** Every diagonal entry is 2 (valX + valY); it is non-zero, as every
      solver's division needs, when valX + valY is. */
  lemma LaplacianDiagonal(M: seq<seq<real>>, n: int, m: int, valX: real, valY: real)
    requires IsLaplacianMatrix(M, n, m, valX, valY)
    ensures forall i :: 0 <= i < |M| ==> M[i][i] == 2.0 * (valX + valY)
    ensures valX + valY != 0.0 ==> NonZeroDiagonal(M)
  {
    forall i | 0 <= i < |M|
      ensures M[i][i] == 2.0 * (valX + valY)
    {
      StencilRow(n, valX, valY, i);
    }
  }

  /** The links of unknown i inside the matrix: +-1 is a horizontal link
      (-valX) unless it crosses a grid row boundary, where it is 0 (with
      n == 1 it is the vertical link); +-n is always the vertical link. */
  lemma LaplacianLinks(M: seq<seq<real>>, n: int, m: int, valX: real, valY: real, i: int)
    requires IsLaplacianMatrix(M, n, m, valX, valY) && 0 <= i < |M|
    ensures i + 1 < |M| ==> M[i][i + 1] == if (i + 1) % n != 0 then -valX else if n == 1 then -valY else 0.0
    ensures i - 1 >= 0 ==> M[i][i - 1] == if i % n != 0 then -valX else if n == 1 then -valY else 0.0
    ensures i + n < |M| ==> M[i][i + n] == -valY
    ensures i - n >= 0 ==> M[i][i - n] == -valY
  {
    StencilRow(n, valX, valY, i);
  }

  /** Through `get`, an assembled CDS matrix has its +-1 link exactly where
      the grid row continues; past the ends of the matrix it reads 0. */
  lemma CdsRowBoundary(A: Cds, n: int, m: int, valX: real, valY: real, i: int)
    requires IsLaplacian(A, n, m, valX, valY) && 0 <= i < A.size && n >= 2
    ensures SlotInBounds(A.size, n, i, i + 1) && SlotInBounds(A.size, n, i, i - 1)
    ensures A.Get(i, i + 1) == if i + 1 < A.size && (i + 1) % n != 0 then -valX else 0.0
    ensures A.Get(i, i - 1) == if i % n != 0 then -valX else 0.0
  {
    StencilRow(n, valX, valY, i);
    if i == 0 {
      assert i % n == 0;
    }
  }

  /** The operator is symmetric. */
  lemma LaplacianSymmetric(M: seq<seq<real>>, n: int, m: int, valX: real, valY: real)
    requires IsLaplacianMatrix(M, n, m, valX, valY)
    ensures forall p, q :: 0 <= p < |M| && 0 <= q < |M| ==> M[p][q] == M[q][p]
  {
  }

  /** The operator lies on the five diagonals of width n. */
  lemma LaplacianOnFiveDiagonals(M: seq<seq<real>>, n: int, m: int, valX: real, valY: real)
    requires IsLaplacianMatrix(M, n, m, valX, valY)
    ensures OnFiveDiagonals(M, n)
  {
    forall p, q | 0 <= p < |M| && 0 <= q < |M| && M[p][q] != 0.0
      ensures q - p in {0, 1, -1, n, -n}
    {
      StencilOffBand(n, valX, valY, p, q);
    }
  }

  /** The right-hand side entry of grid point (i, j): f at the point plus,
      for every side of the grid the point touches, the boundary value g
      across that side scaled by 1 / l^2 (left, right) or 1 / h^2 (bottom,
      top). */
  function RhsEntry(n: int, m: int, l: real, h: real, f: (real, real) -> real, g: (real, real) -> real, i: int, j: int): real
    requires l != 0.0 && h != 0.0
  {
    var x, y := Coordinate(i, l), Coordinate(j, h);
    f(x, y)
    + SideTerm(i == 0, InverseSquare(l), g(0.0, y))
    + SideTerm(i == n - 1, InverseSquare(l), g(Coordinate(n, l), y))
    + SideTerm(j == 0, InverseSquare(h), g(x, 0.0))
    + SideTerm(j == m - 1, InverseSquare(h), g(x, Coordinate(m, h)))
  }

  /** The coordinate of grid line k (counted from 0) with spacing step:
      the grid starts one step in from the boundary at 0. */
  function Coordinate(k: int, step: real): real
  {
    (k + 1) as real * step
  }

  /** 1 / step^2, the scale of a second difference. */
  function InverseSquare(step: real): real
    requires step != 0.0
  {
    1.0 / (step * step)
  }

  /** The contribution of one side of the grid: the boundary value scaled,
      or nothing when the point does not touch that side. */
  function SideTerm(touches: bool, scale: real, boundary: real): real
  {
    if touches then scale * boundary else 0.0
  }

  /** An interior point away from every side gets f alone. */
  lemma RhsInteriorPoint(n: int, m: int, l: real, h: real, f: (real, real) -> real, g: (real, real) -> real, i: int, j: int)
    requires l != 0.0 && h != 0.0 && 0 < i < n - 1 && 0 < j < m - 1
    ensures RhsEntry(n, m, l, h, f, g, i, j) == f((i + 1) as real * l, (j + 1) as real * h)
  {
  }

  /** The bottom-left corner of a grid at least 2 x 2 gets the left and the
      bottom boundary terms. */
  lemma RhsCorner(n: int, m: int, l: real, h: real, f: (real, real) -> real, g: (real, real) -> real)
    requires l != 0.0 && h != 0.0 && n >= 2 && m >= 2
    ensures RhsEntry(n, m, l, h, f, g, 0, 0) == f(l, h) + 1.0 / (l * l) * g(0.0, h) + 1.0 / (h * h) * g(l, 0.0)
  {
  }

  /** A grid one point wide gets both the left and the right terms. */
  lemma RhsUnitWidth(m: int, l: real, h: real, f: (real, real) -> real, g: (real, real) -> real, j: int)
    requires l != 0.0 && h != 0.0 && 0 < j < m - 1
    ensures RhsEntry(1, m, l, h, f, g, 0, j)
      == f(l, (j + 1) as real * h) + 1.0 / (l * l) * g(0.0, (j + 1) as real * h) + 1.0 / (l * l) * g(2.0 * l, (j + 1) as real * h)
  {
  }

  /** With no source and zero boundary values every entry is 0. */
  lemma RhsZeroData(n: int, m: int, l: real, h: real, f: (real, real) -> real, g: (real, real) -> real, i: int, j: int)
    requires l != 0.0 && h != 0.0
    requires forall x, y :: f(x, y) == 0.0 && g(x, y) == 0.0
    ensures RhsEntry(n, m, l, h, f, g, i, j) == 0.0
  {
  }

  /** Right-hand side assembly: grid row by grid row, unknown j * n + i gets
      the entry of grid point (i, j). */
  method BuildVectorB(n: int, m: int, l: real, h: real, f: (real, real) -> real, g: (real, real) -> real) returns (B: array<real>)
    requires 1 <= n && 1 <= m && l != 0.0 && h != 0.0
    ensures fresh(B)
    ensures B.Length == n * m
    ensures forall p :: 0 <= p < n * m ==> B[p] == RhsEntry(n, m, l, h, f, g, p % n, p / n)
  {
    var size := n * m;
    B := new real[size];
    for j := 0 to m
      invariant forall p :: 0 <= p < j * n && p < size ==> B[p] == RhsEntry(n, m, l, h, f, g, p % n, p / n)
    {
      RowStart(n, m, j);
      FillRhsRow(B, n, m, l, h, f, g, j, j * n);
    }
    assert m * n == size;
  }

  /** The inner loop of the right-hand side assembly for grid row j, whose
      unknowns start at rowStart. */
  method FillRhsRow(B: array<real>, n: int, m: int, l: real, h: real, f: (real, real) -> real, g: (real, real) -> real, j: int, rowStart: int)
    requires 1 <= n && 0 <= j < m && l != 0.0 && h != 0.0 && B.Length == n * m
    requires rowStart == j * n && 0 <= rowStart && rowStart + n <= n * m
    requires forall p :: 0 <= p < rowStart ==> B[p] == RhsEntry(n, m, l, h, f, g, p % n, p / n)
    modifies B
    ensures forall p :: 0 <= p < rowStart + n ==> B[p] == RhsEntry(n, m, l, h, f, g, p % n, p / n)
  {
    for i := 0 to n
      invariant forall p :: 0 <= p < rowStart + i ==> B[p] == RhsEntry(n, m, l, h, f, g, p % n, p / n)
    {
      var idx := rowStart + i;
      Coordinates(n, m, i, j);
      var value := RhsPoint(n, m, l, h, f, g, i, j);
      B[idx] := value;
    }
  }

  /** The value of one grid point, accumulated term by term. */
  method RhsPoint(n: int, m: int, l: real, h: real, f: (real, real) -> real, g: (real, real) -> real, i: int, j: int) returns (value: real)
    requires l != 0.0 && h != 0.0
    ensures value == RhsEntry(n, m, l, h, f, g, i, j)
  {
    var x, y := Coordinate(i, l), Coordinate(j, h);
    var l2inv, h2inv := InverseSquare(l), InverseSquare(h);
    value := f(x, y);
    if i == 0 {
      value := value + l2inv * g(0.0, y);
    }
    ghost var partial := f(x, y) + SideTerm(i == 0, l2inv, g(0.0, y));
    assert value == partial;
    if i == n - 1 {
      value := value + l2inv * g(Coordinate(n, l), y);
    }
    partial := partial + SideTerm(i == n - 1, l2inv, g(Coordinate(n, l), y));
    assert value == partial;
    if j == 0 {
      value := value + h2inv * g(x, 0.0);
    }
    partial := partial + SideTerm(j == 0, h2inv, g(x, 0.0));
    assert value == partial;
    if j == m - 1 {
      value := value + h2inv * g(x, Coordinate(m, h));
    }
  }
}
