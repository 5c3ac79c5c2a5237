// What the three iterative solvers share: the four-neighbour product that
// `calculateSum` computes (and that the Jacobi and Gauss-Seidel CDS solvers
// write out inline), the full off-diagonal row product of the dense solvers,
// the maximum-difference convergence test and the integer square root used
// as a grid width. The solvers are specified over the matrix as rows, the
// values `get` (or the dense array) returns.
module Sweeps {
  import opened Storage

  function Abs(r: real): real
  {
    if r < 0.0 then -r else r
  }

  /** The diagonal every update divides by is non-zero in every row. */
  predicate NonZeroDiagonal(M: seq<seq<real>>)
  {
    Square(M) && forall i :: 0 <= i < |M| ==> M[i][i] != 0.0
  }

  /** M is the square dense matrix A, row by row. */
  ghost predicate DenseHolds(A: array2<real>, M: seq<seq<real>>)
    reads A
  {
    A.Length0 == A.Length1 == |M| && Square(M)
    && forall r, c :: 0 <= r < A.Length0 && 0 <= c < A.Length0 ==> M[r][c] == A[r, c]
  }

  /** A square dense matrix as its rows. */
  ghost function DenseRows(A: array2<real>): (M: seq<seq<real>>)
    reads A
    requires A.Length0 == A.Length1
    ensures DenseHolds(A, M)
  {
    seq(A.Length0, r requires 0 <= r < A.Length0 && A.Length0 == A.Length1 reads A =>
      seq(A.Length1, c requires 0 <= c < A.Length1 reads A => A[r, c]))
  }

  /** One guarded probe: the product of entry (i, c) with x[c], taken only
      when the guard holds and the coefficient is non-zero. */
  function Probed(M: seq<seq<real>>, x: seq<real>, i: int, c: int, guard: bool): real
    requires Square(M) && 0 <= i < |M| && |x| >= |M| && (guard ==> 0 <= c < |M|)
  {
    if guard && M[i][c] != 0.0 then M[i][c] * x[c] else 0.0
  }

  /** The neighbour product of row i with grid width w: the entries at
      i - 1, i + 1, i - w and i + w, each taken only when its index is
      inside the matrix and its coefficient is non-zero. */
  function NeighbourSum(M: seq<seq<real>>, x: seq<real>, i: int, w: int): real
    requires Square(M) && 0 <= i < |M| && |x| >= |M| && w >= 0
  {
    Probed(M, x, i, i - 1, i > 0)
    + Probed(M, x, i, i + 1, i < |M| - 1)
    + Probed(M, x, i, i - w, i >= w)
    + Probed(M, x, i, i + w, i < |M| - w)
  }

  /** `calculateSum`: the four guarded probes of row i through `get`,
      added up left, right, down, up. */
  function CalculateSum(A: Cds, x: array<real>, i: int, gridWidth: int, size: int, ghost M: seq<seq<real>>): (sum: real)
    reads A.Repr(), x
    requires A.Valid() && A.HoldsRows(M) && size == A.size && 0 <= i < size && x.Length >= size && gridWidth >= 0
    ensures sum == NeighbourSum(M, x[..size], i, gridWidth)
  {
    0.0
    + ProbeTerm(A, x, i, i - 1, i > 0, M)
    + ProbeTerm(A, x, i, i + 1, i < size - 1, M)
    + ProbeTerm(A, x, i, i - gridWidth, i >= gridWidth, M)
    + ProbeTerm(A, x, i, i + gridWidth, i < size - gridWidth, M)
  }

  /** One guarded probe of `calculateSum`, read through `get` twice as the
      source does. */
  function ProbeTerm(A: Cds, x: array<real>, i: int, c: int, guard: bool, ghost M: seq<seq<real>>): (t: real)
    reads A.Repr(), x
    requires A.Valid() && A.HoldsRows(M) && 0 <= i < A.size && x.Length >= A.size && (guard ==> 0 <= c < A.size)
    ensures t == Probed(M, x[..A.size], i, c, guard)
  {
    if guard && A.Get(i, c) != 0.0 then A.Get(i, c) * x[c] else 0.0
  }

  /** The neighbour product reads x only at the probed indices whose
      coefficient is non-zero. */
  lemma NeighbourSumLocal(M: seq<seq<real>>, x: seq<real>, y: seq<real>, i: int, w: int)
    requires Square(M) && 0 <= i < |M| && |x| >= |M| && |y| >= |M| && w >= 0
    requires forall p :: 0 <= p < |M| && (p == i - 1 || p == i + 1 || p == i - w || p == i + w) && M[i][p] != 0.0 ==> x[p] == y[p]
    ensures NeighbourSum(M, x, i, w) == NeighbourSum(M, y, i, w)
  {
  }

  /** Row i of an in-place CDS sweep (Gauss-Seidel and red-black): the
      four guarded probes at the distance w, then the division by the
      diagonal, written in place. */
  method RelaxRow(A: Cds, B: array<real>, x: array<real>, i: int, w: nat, ghost M: seq<seq<real>>, ghost b: seq<real>)
    requires A.Valid() && A.HoldsRows(M) && NonZeroDiagonal(M) && 0 <= i < A.size
    requires B.Length >= A.size && x.Length >= A.size && x != B && x !in A.Repr() && b == B[..]
    modifies x
    ensures x[..A.size] == old(x[..A.size])[i := RowUpdate(M, b, old(x[..A.size]), i, Neighbours(w))]
    ensures x[A.size..] == old(x[A.size..])
  {
    var sum := CalculateSum(A, x, i, w, A.GetSize(), M);
    var diagonal := A.Get(i, i);
    x[i] := (B[i] - sum) / diagonal;
  }

  /** The off-diagonal product of row i over the columns below k, summed
      left to right as the dense solvers do. */
  function OffDiagonalSum(M: seq<seq<real>>, x: seq<real>, i: int, k: int): real
    requires Square(M) && 0 <= i < |M| && 0 <= k <= |M| && |x| >= |M|
  {
    if k == 0 then 0.0
    else OffDiagonalSum(M, x, i, k - 1) + (if k - 1 != i then M[i][k - 1] * x[k - 1] else 0.0)
  }

  /** The terms of the neighbour product for width n whose column is below k. */
  function ProbesBelow(M: seq<seq<real>>, n: int, x: seq<real>, i: int, k: int): real
    requires Square(M) && 0 <= i < |M| && 0 <= k <= |M| && |x| >= |M|
  {
    (if 0 <= i - 1 < k then M[i][i - 1] * x[i - 1] else 0.0)
    + (if i + 1 < k then M[i][i + 1] * x[i + 1] else 0.0)
    + (if 0 <= i - n < k then M[i][i - n] * x[i - n] else 0.0)
    + (if 0 <= i + n < k then M[i][i + n] * x[i + n] else 0.0)
  }

  lemma {:induction false} OffDiagonalSumIsProbesBelow(M: seq<seq<real>>, n: int, x: seq<real>, i: int, k: int)
    requires Square(M) && OnFiveDiagonals(M, n) && n >= 2 && 0 <= i < |M| && 0 <= k <= |M| && |x| >= |M|
    ensures OffDiagonalSum(M, x, i, k) == ProbesBelow(M, n, x, i, k)
  {
    if k > 0 {
      OffDiagonalSumIsProbesBelow(M, n, x, i, k - 1);
      var c := k - 1;
      if c != i && c != i - 1 && c != i + 1 && c != i - n && c != i + n {
        assert M[i][c] == 0.0;
      }
    }
  }

  /** With the storage width n >= 2 as grid width, the neighbour product of
      a matrix held on the five diagonals is the whole off-diagonal product
      of the row: the four probes are distinct and cover every non-zero
      off-diagonal entry. */
  lemma NeighbourSumIsOffDiagonalSum(M: seq<seq<real>>, n: int, x: seq<real>, i: int)
    requires Square(M) && OnFiveDiagonals(M, n) && n >= 2 && 0 <= i < |M| && |x| >= |M|
    ensures NeighbourSum(M, x, i, n) == OffDiagonalSum(M, x, i, |M|)
  {
    OffDiagonalSumIsProbesBelow(M, n, x, i, |M|);
  }

  /** Which off-diagonal product a solver forms: the four probes of a
      grid width (the CDS solvers and `calculateSum`), or every column of
      the row (the dense solvers). */
  datatype Coupling = Neighbours(width: nat) | FullRow

  function OffDiagonal(M: seq<seq<real>>, x: seq<real>, i: int, cp: Coupling): real
    requires Square(M) && 0 <= i < |M| && |x| >= |M|
  {
    match cp
    case Neighbours(w) => NeighbourSum(M, x, i, w)
    case FullRow => OffDiagonalSum(M, x, i, |M|)
  }

  /** The update every solver applies to row i: (b[i] - off-diagonal
      product) / diagonal. */
  function RowUpdate(M: seq<seq<real>>, b: seq<real>, x: seq<real>, i: int, cp: Coupling): real
    requires NonZeroDiagonal(M) && 0 <= i < |M| && |b| >= |M| && |x| >= |M|
  {
    (b[i] - OffDiagonal(M, x, i, cp)) / M[i][i]
  }

  /** Row i of the system holds for x as the solver reads the row. */
  predicate RowHolds(M: seq<seq<real>>, b: seq<real>, x: seq<real>, i: int, cp: Coupling)
    requires Square(M) && 0 <= i < |M| && |b| >= |M| && |x| >= |M|
  {
    M[i][i] * x[i] + OffDiagonal(M, x, i, cp) == b[i]
  }

  /** Every row of the system holds for x as the solver reads the rows. */
  predicate Satisfies(M: seq<seq<real>>, b: seq<real>, x: seq<real>, cp: Coupling)
    requires Square(M) && |b| >= |M| && |x| >= |M|
  {
    forall i :: 0 <= i < |M| ==> RowHolds(M, b, x, i, cp)
  }

  /** The update leaves x[i] in place exactly when row i already holds. */
  lemma RowUpdateFixed(M: seq<seq<real>>, b: seq<real>, x: seq<real>, i: int, cp: Coupling)
    requires NonZeroDiagonal(M) && 0 <= i < |M| && |b| >= |M| && |x| >= |M|
    ensures RowUpdate(M, b, x, i, cp) == x[i] <==> RowHolds(M, b, x, i, cp)
  {
    DivisionByDiagonal(M[i][i], b[i] - OffDiagonal(M, x, i, cp), x[i]);
  }

  lemma DivisionByDiagonal(d: real, r: real, v: real)
    requires d != 0.0
    ensures r / d == v <==> d * v == r
  {
  }

  /** After the update row i holds, whatever x[i] was, as long as the
      off-diagonal product does not read x[i]. */
  lemma RowUpdateSolvesRow(M: seq<seq<real>>, b: seq<real>, x: seq<real>, i: int, cp: Coupling)
    requires NonZeroDiagonal(M) && 0 <= i < |M| && |b| >= |M| && |x| >= |M|
    requires OffDiagonal(M, x[i := RowUpdate(M, b, x, i, cp)], i, cp) == OffDiagonal(M, x, i, cp)
    ensures RowHolds(M, b, x[i := RowUpdate(M, b, x, i, cp)], i, cp)
  {
    var y := x[i := RowUpdate(M, b, x, i, cp)];
    DivisionByDiagonal(M[i][i], b[i] - OffDiagonal(M, x, i, cp), y[i]);
  }

  /** The product of row i with x over the columns below k. */
  function RowDot(M: seq<seq<real>>, x: seq<real>, i: int, k: int): real
    requires Square(M) && 0 <= i < |M| && 0 <= k <= |M| && |x| >= |M|
  {
    if k == 0 then 0.0 else RowDot(M, x, i, k - 1) + M[i][k - 1] * x[k - 1]
  }

  /** x solves the system A x = b. */
  predicate Solves(M: seq<seq<real>>, b: seq<real>, x: seq<real>)
    requires Square(M) && |b| >= |M| && |x| >= |M|
  {
    forall i :: 0 <= i < |M| ==> RowDot(M, x, i, |M|) == b[i]
  }

  lemma {:induction false} DiagonalPlusOffDiagonal(M: seq<seq<real>>, x: seq<real>, i: int, k: int)
    requires Square(M) && 0 <= i < |M| && 0 <= k <= |M| && |x| >= |M|
    ensures OffDiagonalSum(M, x, i, k) + (if i < k then M[i][i] * x[i] else 0.0) == RowDot(M, x, i, k)
  {
    if k > 0 {
      DiagonalPlusOffDiagonal(M, x, i, k - 1);
    }
  }

  /** Read with the whole row, the rows hold exactly when x solves the
      system. */
  lemma FullRowSatisfiesIffSolves(M: seq<seq<real>>, b: seq<real>, x: seq<real>)
    requires Square(M) && |b| >= |M| && |x| >= |M|
    ensures Satisfies(M, b, x, FullRow) <==> Solves(M, b, x)
  {
    forall i | 0 <= i < |M|
      ensures RowHolds(M, b, x, i, FullRow) <==> RowDot(M, x, i, |M|) == b[i]
    {
      DiagonalPlusOffDiagonal(M, x, i, |M|);
    }
  }

  /** With the storage width n >= 2 on a five-diagonal matrix, the probes
      and the whole row give the same product. */
  lemma CouplingsAgree(M: seq<seq<real>>, n: int, x: seq<real>, i: int)
    requires Square(M) && OnFiveDiagonals(M, n) && n >= 2 && 0 <= i < |M| && |x| >= |M|
    ensures OffDiagonal(M, x, i, Neighbours(n)) == OffDiagonal(M, x, i, FullRow)
  {
    NeighbourSumIsOffDiagonalSum(M, n, x, i);
  }

  /** On such a matrix, read with its own width, the rows hold exactly when
      x solves the system. */
  lemma NeighboursSatisfyIffSolves(M: seq<seq<real>>, n: int, b: seq<real>, x: seq<real>)
    requires Square(M) && OnFiveDiagonals(M, n) && n >= 2 && |b| >= |M| && |x| >= |M|
    ensures Satisfies(M, b, x, Neighbours(n)) <==> Solves(M, b, x)
  {
    forall i | 0 <= i < |M|
      ensures RowHolds(M, b, x, i, Neighbours(n)) <==> RowHolds(M, b, x, i, FullRow)
    {
      CouplingsAgree(M, n, x, i);
    }
    FullRowSatisfiesIffSolves(M, b, x);
  }

  /** The largest |u[q] - v[q]| over q < k, starting from 0 and replaced
      only by a strictly larger difference. */
  function MaxDiff(u: seq<real>, v: seq<real>, k: nat): real
    requires k <= |u| && k <= |v|
  {
    if k == 0 then 0.0
    else
      var d := MaxDiff(u, v, k - 1);
      var diff := Abs(u[k - 1] - v[k - 1]);
      if diff > d then diff else d
  }

  /** MaxDiff is the maximum: never negative, at least every difference,
      and either 0 or one of the differences. */
  lemma {:induction false} MaxDiffIsMaximum(u: seq<real>, v: seq<real>, k: nat)
    requires k <= |u| && k <= |v|
    ensures MaxDiff(u, v, k) >= 0.0
    ensures forall q :: 0 <= q < k ==> Abs(u[q] - v[q]) <= MaxDiff(u, v, k)
    ensures MaxDiff(u, v, k) == 0.0 || exists q :: 0 <= q < k && MaxDiff(u, v, k) == Abs(u[q] - v[q])
  {
    if k > 0 {
      MaxDiffIsMaximum(u, v, k - 1);
    }
  }

  /** MaxDiff over k entries reads only those k entries. */
  lemma {:induction false} MaxDiffLocal(u: seq<real>, u2: seq<real>, v: seq<real>, k: nat)
    requires k <= |u| && k <= |u2| && k <= |v|
    requires forall q :: 0 <= q < k ==> u[q] == u2[q]
    ensures MaxDiff(u, v, k) == MaxDiff(u2, v, k)
  {
    if k > 0 {
      MaxDiffLocal(u, u2, v, k - 1);
    }
  }

  /** The convergence test `maxDiff < tol` holds exactly when tol is positive
      and every difference is below it. */
  lemma MaxDiffBelow(u: seq<real>, v: seq<real>, k: nat, tol: real)
    requires k <= |u| && k <= |v|
    ensures MaxDiff(u, v, k) < tol <==> tol > 0.0 && forall q :: 0 <= q < k ==> Abs(u[q] - v[q]) < tol
  {
    MaxDiffIsMaximum(u, v, k);
  }

  /** `x0.clone()`: a fresh array with the same entries. */
  method Clone(a: array<real>) returns (c: array<real>)
    ensures fresh(c) && c[..] == a[..]
  {
    c := new real[a.Length](j requires 0 <= j < a.Length reads a => a[j]);
  }

  /** The convergence loop of the Jacobi solvers: the largest change
      between the new and the previous iterate over the first k entries. */
  method MaxChange(x: array<real>, xOld: array<real>, k: int) returns (maxDiff: real)
    requires 0 <= k <= x.Length && k <= xOld.Length
    ensures maxDiff == MaxDiff(x[..k], xOld[..k], k)
  {
    maxDiff := 0.0;
    for i := 0 to k
      invariant maxDiff == MaxDiff(x[..k], xOld[..k], i)
    {
      var diff := Abs(x[i] - xOld[i]);
      if diff > maxDiff {
        maxDiff := diff;
      }
    }
  }

  /** `(int) Math.sqrt(s)`: the largest r with r * r <= s. */
  function FloorSqrt(s: nat): (r: nat)
    ensures r * r <= s < (r + 1) * (r + 1)
  {
    if s == 0 then 0
    else
      var r := FloorSqrt(s - 1);
      if (r + 1) * (r + 1) <= s then r + 1 else r
  }

  lemma {:induction false} SquareMonotone(a: nat, b: nat)
    requires a <= b
    ensures a * a <= b * b
  {
    if a < b {
      SquareMonotone(a, b - 1);
      assert b * b == (b - 1) * (b - 1) + 2 * b - 1;
    }
  }

  /** On a square grid the integer square root of the unknown count is the
      grid width. */
  lemma FloorSqrtOfSquare(n: nat)
    ensures FloorSqrt(n * n) == n
  {
    var r := FloorSqrt(n * n);
    assert (n + 1) * (n + 1) == n * n + 2 * n + 1;
    if r < n {
      SquareMonotone(r + 1, n);
    } else if r > n {
      SquareMonotone(n + 1, r);
    }
  }
}
