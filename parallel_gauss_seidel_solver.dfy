// Red-black Gauss-Seidel: every sweep first updates, in place and in index
// order, the red unknowns (grid points (i, j) with i + j even), then the
// black ones. Both phases read their neighbours at the grid width n. After
// each sweep the squared residual norm, read at the width floor(sqrt(size)),
// is compared with tol^2.
module ParallelGaussSeidelSolver {
  import opened Storage
  import opened Sweeps
  import opened MatrixBuilder

  /** Unknown idx sits on grid point (idx % n, idx / n); it is red when the
      sum of its coordinates is even. */
  predicate IsRed(n: int, idx: int)
    requires n >= 1
  {
    (idx % n + idx / n) % 2 == 0
  }

  /** Every off-diagonal non-zero entry links a red and a black unknown. */
  predicate ColoursSeparate(M: seq<seq<real>>, n: int)
    requires n >= 1
  {
    && Square(M)
    && forall p, q :: 0 <= p < |M| && 0 <= q < |M| && p != q && M[p][q] != 0.0 ==> IsRed(n, p) != IsRed(n, q)
  }

  /** The vector after indices 0 .. k-1 of the phase of one colour: the
      unknowns of that colour are updated in place, the others skipped. */
  function PhaseUpTo(M: seq<seq<real>>, b: seq<real>, x: seq<real>, n: int, red: bool, k: nat): (y: seq<real>)
    requires NonZeroDiagonal(M) && |b| >= |M| && |x| == |M| && n >= 1 && k <= |M|
    ensures |y| == |M|
  {
    if k == 0 then x
    else
      var y := PhaseUpTo(M, b, x, n, red, k - 1);
      if IsRed(n, k - 1) == red then y[k - 1 := RowUpdate(M, b, y, k - 1, Neighbours(n))] else y
  }

  /** One whole phase. */
  function Phase(M: seq<seq<real>>, b: seq<real>, x: seq<real>, n: int, red: bool): (y: seq<real>)
    requires NonZeroDiagonal(M) && |b| >= |M| && |x| == |M| && n >= 1
  {
    PhaseUpTo(M, b, x, n, red, |M|)
  }

  /** One sweep: the red phase, then the black phase. */
  function RbSweep(M: seq<seq<real>>, b: seq<real>, x: seq<real>, n: int): (y: seq<real>)
    requires NonZeroDiagonal(M) && |b| >= |M| && |x| == |M| && n >= 1
  {
    Phase(M, b, Phase(M, b, x, n, true), n, false)
  }

  /** The first size entries of the iterate after k sweeps from x0. */
  function RbIterate(M: seq<seq<real>>, b: seq<real>, x0: seq<real>, n: int, k: nat): (x: seq<real>)
    requires NonZeroDiagonal(M) && |b| >= |M| && |x0| >= |M| && n >= 1
    ensures |x| == |M|
  {
    if k == 0 then x0[..|M|] else RbSweep(M, b, RbIterate(M, b, x0, n, k - 1), n)
  }

  /** A phase has not yet touched the indices from k on, and never touches
      the other colour. */
  lemma {:induction false} PhaseUpToFrame(M: seq<seq<real>>, b: seq<real>, x: seq<real>, n: int, red: bool, k: nat)
    requires NonZeroDiagonal(M) && |b| >= |M| && |x| == |M| && n >= 1 && k <= |M|
    ensures forall p :: 0 <= p < |M| && (k <= p || IsRed(n, p) != red) ==> PhaseUpTo(M, b, x, n, red, k)[p] == x[p]
  {
    if k > 0 {
      PhaseUpToFrame(M, b, x, n, red, k - 1);
    }
  }

  /** Once index p is passed, the rest of the phase leaves it alone. */
  lemma {:induction false} PhaseUpToStable(M: seq<seq<real>>, b: seq<real>, x: seq<real>, n: int, red: bool, k: nat, k2: nat)
    requires NonZeroDiagonal(M) && |b| >= |M| && |x| == |M| && n >= 1 && k <= k2 <= |M|
    ensures forall p :: 0 <= p < k ==> PhaseUpTo(M, b, x, n, red, k2)[p] == PhaseUpTo(M, b, x, n, red, k)[p]
  {
    if k < k2 {
      PhaseUpToStable(M, b, x, n, red, k, k2 - 1);
    }
  }

  /** The red phase writes only red unknowns, the black phase only black
      ones. */
  lemma PhaseWritesOnlyItsColour(M: seq<seq<real>>, b: seq<real>, x: seq<real>, n: int, red: bool)
    requires NonZeroDiagonal(M) && |b| >= |M| && |x| == |M| && n >= 1
    ensures forall p :: 0 <= p < |M| && IsRed(n, p) != red ==> Phase(M, b, x, n, red)[p] == x[p]
  {
    PhaseUpToFrame(M, b, x, n, red, |M|);
  }

  /** The operator of an n x m grid links only grid neighbours, whose
      coordinate sums differ by one: it is red-black. */
  lemma LaplacianIsRedBlack(M: seq<seq<real>>, n: int, m: int, valX: real, valY: real)
    requires IsLaplacianMatrix(M, n, m, valX, valY)
    ensures ColoursSeparate(M, n)
  {
    forall p, q | 0 <= p < |M| && 0 <= q < |M| && p != q && M[p][q] != 0.0
      ensures IsRed(n, p) != IsRed(n, q)
    {
      LinkedPointsDifferInColour(n, valX, valY, p, q);
    }
  }

  /** Two distinct unknowns the stencil links have coordinate sums one
      apart, hence different colours. */
  lemma LinkedPointsDifferInColour(n: int, valX: real, valY: real, p: int, q: int)
    requires 1 <= n && p != q && Stencil(n, valX, valY, p, q) != 0.0
    ensures IsRed(n, p) != IsRed(n, q)
  {
    var pi, pj, qi, qj := p % n, p / n, q % n, q / n;
    assert (pi + pj) - (qi + qj) == 1 || (qi + qj) - (pi + pj) == 1;
  }

  /** On a red-black matrix a phase is simultaneous: every unknown of its
      colour gets the update computed from the phase's input, so the order
      in which the phase visits them does not matter. */
  lemma PhaseIsSimultaneous(M: seq<seq<real>>, b: seq<real>, x: seq<real>, n: int, red: bool)
    requires NonZeroDiagonal(M) && |b| >= |M| && |x| == |M| && n >= 1 && ColoursSeparate(M, n)
    ensures forall p :: 0 <= p < |M| ==>
      Phase(M, b, x, n, red)[p] == if IsRed(n, p) == red then RowUpdate(M, b, x, p, Neighbours(n)) else x[p]
  {
    PhaseUpToFrame(M, b, x, n, red, |M|);
    forall p | 0 <= p < |M| && IsRed(n, p) == red
      ensures Phase(M, b, x, n, red)[p] == RowUpdate(M, b, x, p, Neighbours(n))
    {
      var y := PhaseUpTo(M, b, x, n, red, p);
      PhaseUpToStable(M, b, x, n, red, p + 1, |M|);
      PhaseUpToFrame(M, b, x, n, red, p);
      NeighbourSumLocal(M, y, x, p, n);
    }
  }

  /** On a red-black matrix a vector is left unchanged by a sweep exactly
      when it satisfies every row as the probes read it. */
  lemma RbFixedPoint(M: seq<seq<real>>, b: seq<real>, x: seq<real>, n: int)
    requires NonZeroDiagonal(M) && |b| >= |M| && |x| == |M| && n >= 1 && ColoursSeparate(M, n)
    ensures RbSweep(M, b, x, n) == x <==> Satisfies(M, b, x, Neighbours(n))
  {
    var y := Phase(M, b, x, n, true);
    PhaseIsSimultaneous(M, b, x, n, true);
    PhaseIsSimultaneous(M, b, y, n, false);
    forall p | 0 <= p < |M|
      ensures RowUpdate(M, b, x, p, Neighbours(n)) == x[p] <==> RowHolds(M, b, x, p, Neighbours(n))
    {
      RowUpdateFixed(M, b, x, p, Neighbours(n));
    }
    if RbSweep(M, b, x, n) == x {
      assert y == x;
    }
    if Satisfies(M, b, x, Neighbours(n)) {
      assert y == x;
    }
  }

  /** With the grid width n >= 2, the sweep of an assembled operator keeps a
      vector exactly when it solves the system. */
  lemma RbFixedPointSolves(M: seq<seq<real>>, n: int, m: int, valX: real, valY: real, b: seq<real>, x: seq<real>)
    requires IsLaplacianMatrix(M, n, m, valX, valY) && valX + valY != 0.0 && n >= 2 && |b| >= |M| && |x| == |M|
    ensures NonZeroDiagonal(M)
    ensures RbSweep(M, b, x, n) == x <==> Solves(M, b, x)
  {
    LaplacianDiagonal(M, n, m, valX, valY);
    LaplacianOnFiveDiagonals(M, n, m, valX, valY);
    LaplacianIsRedBlack(M, n, m, valX, valY);
    RbFixedPoint(M, b, x, n);
    NeighboursSatisfyIffSolves(M, n, b, x);
  }

  /** Residual i, with A x read as the diagonal term plus the probes at the
      distance w. */
  function Residual(M: seq<seq<real>>, b: seq<real>, x: seq<real>, i: int, w: nat): real
    requires Square(M) && 0 <= i < |M| && |b| >= |M| && |x| >= |M|
  {
    b[i] - (M[i][i] * x[i] + NeighbourSum(M, x, i, w))
  }

  function Sq(r: real): real
  {
    r * r
  }

  /** The sum of the squared residuals of rows 0 .. k-1. */
  function ResidualNormSq(M: seq<seq<real>>, b: seq<real>, x: seq<real>, w: nat, k: nat): real
    requires Square(M) && k <= |M| && |b| >= |M| && |x| >= |M|
  {
    if k == 0 then 0.0 else ResidualNormSq(M, b, x, w, k - 1) + Sq(Residual(M, b, x, k - 1, w))
  }

  /** A square is never negative, equals the square of the absolute value,
      and is positive away from zero. */
  lemma SqFacts(r: real)
    ensures Sq(r) >= 0.0
    ensures Sq(r) == Sq(Abs(r))
    ensures r != 0.0 ==> Sq(r) > 0.0
  {
    calc { Sq(r); == r * r; == (-r) * (-r); == Sq(-r); }
    if r != 0.0 {
      var a := Abs(r);
      calc { Sq(a); == a * a; > { MultiplyBelow(a, 0.0, a); } a * 0.0; == 0.0; }
    }
  }

  /** Multiplying by a non-negative factor keeps the order, strictly when
      the factor is positive. */
  lemma MultiplyBelow(c: real, u: real, v: real)
    requires c >= 0.0 && u <= v
    ensures c * u <= c * v
    ensures c > 0.0 && u < v ==> c * u < c * v
  {
    assert c * v - c * u == c * (v - u);
    if c > 0.0 && u < v {
      assert c * (v - u) > 0.0;
    }
  }

  /** Squaring is monotone on the non-negative reals. */
  lemma SqMonotone(u: real, v: real)
    requires 0.0 <= u <= v
    ensures Sq(u) <= Sq(v)
    ensures u < v ==> Sq(u) < Sq(v)
  {
    if u < v {
      calc {
        Sq(u);
      == u * u;
      <= { MultiplyBelow(u, u, v); } u * v;
      == v * u;
      < { MultiplyBelow(v, u, v); } v * v;
      == Sq(v);
      }
    }
  }

  /** The partial sums never decrease and bound each of their terms; they
      vanish exactly when every summed residual does. */
  lemma {:induction false} ResidualNormSqBounds(M: seq<seq<real>>, b: seq<real>, x: seq<real>, w: nat, k: nat)
    requires Square(M) && k <= |M| && |b| >= |M| && |x| >= |M|
    ensures ResidualNormSq(M, b, x, w, k) >= 0.0
    ensures forall i :: 0 <= i < k ==> Sq(Residual(M, b, x, i, w)) <= ResidualNormSq(M, b, x, w, k)
    ensures ResidualNormSq(M, b, x, w, k) == 0.0 <==> forall i :: 0 <= i < k ==> Residual(M, b, x, i, w) == 0.0
  {
    if k > 0 {
      ResidualNormSqBounds(M, b, x, w, k - 1);
      var last := Residual(M, b, x, k - 1, w);
      SqFacts(last);
      if ResidualNormSq(M, b, x, w, k) == 0.0 {
        forall i | 0 <= i < k
          ensures Residual(M, b, x, i, w) == 0.0
        {
          SqFacts(Residual(M, b, x, i, w));
        }
      }
    }
  }

  /** The residual norm vanishes exactly when x satisfies every row as the
      probes at the distance w read it. */
  lemma ResidualZeroIffSatisfies(M: seq<seq<real>>, b: seq<real>, x: seq<real>, w: nat)
    requires Square(M) && |b| >= |M| && |x| >= |M|
    ensures ResidualNormSq(M, b, x, w, |M|) == 0.0 <==> Satisfies(M, b, x, Neighbours(w))
  {
    ResidualNormSqBounds(M, b, x, w, |M|);
    forall i | 0 <= i < |M|
      ensures Residual(M, b, x, i, w) == 0.0 <==> RowHolds(M, b, x, i, Neighbours(w))
    {
    }
  }

  /** On a square n x n grid, n >= 2, the residual read at the width
      floor(sqrt(size)) vanishes exactly at a solution of the system. */
  lemma ResidualZeroOnSquareGrid(M: seq<seq<real>>, n: int, valX: real, valY: real, b: seq<real>, x: seq<real>)
    requires IsLaplacianMatrix(M, n, n, valX, valY) && n >= 2 && |b| >= |M| && |x| >= |M|
    ensures ResidualNormSq(M, b, x, FloorSqrt(|M|), |M|) == 0.0 <==> Solves(M, b, x)
  {
    FloorSqrtOfSquare(n);
    LaplacianOnFiveDiagonals(M, n, n, valX, valY);
    ResidualZeroIffSatisfies(M, b, x, n);
    NeighboursSatisfyIffSolves(M, n, b, x);
  }

  /** `Math.sqrt(norm) < tol` for the non-negative root r of norm is the
      test on the square: tol > 0 and norm < tol^2. */
  lemma RootBelowTolerance(norm: real, r: real, tol: real)
    requires r >= 0.0 && Sq(r) == norm
    ensures r < tol <==> tol > 0.0 && norm < Sq(tol)
  {
    if r < tol {
      SqMonotone(r, tol);
    } else if tol > 0.0 {
      SqMonotone(tol, r);
    }
  }

  /** The convergence test of the solver, on the squared norm. */
  predicate ResidualBelow(M: seq<seq<real>>, b: seq<real>, x: seq<real>, tol: real)
    requires Square(M) && |b| >= |M| && |x| >= |M|
  {
    tol > 0.0 && ResidualNormSq(M, b, x, FloorSqrt(|M|), |M|) < Sq(tol)
  }

  /** When the test passes, every single residual is below tol. */
  lemma ResidualBelowBoundsEachRow(M: seq<seq<real>>, b: seq<real>, x: seq<real>, tol: real)
    requires Square(M) && |b| >= |M| && |x| >= |M| && ResidualBelow(M, b, x, tol)
    ensures forall i :: 0 <= i < |M| ==> Abs(Residual(M, b, x, i, FloorSqrt(|M|))) < tol
  {
    var w := FloorSqrt(|M|);
    ResidualNormSqBounds(M, b, x, w, |M|);
    forall i | 0 <= i < |M|
      ensures Abs(Residual(M, b, x, i, w)) < tol
    {
      SquareBelow(Residual(M, b, x, i, w), tol);
    }
  }

  /** A square below tol^2, for a positive tol, has its root below tol. */
  lemma SquareBelow(r: real, tol: real)
    requires tol > 0.0 && Sq(r) < Sq(tol)
    ensures Abs(r) < tol
  {
    SqFacts(r);
    RootBelowTolerance(Sq(r), Abs(r), tol);
  }

  /** The stopping rule: at most maxIter sweeps ran (at least one when
      maxIter > 0), every earlier sweep left the residual test failing, and
      unless the budget ran out the last sweep passed it. */
  predicate RbStopped(M: seq<seq<real>>, b: seq<real>, x0: seq<real>, n: int, maxIter: int, tol: real, sweeps: nat)
    requires NonZeroDiagonal(M) && |b| >= |M| && |x0| >= |M| && n >= 1
  {
    && sweeps <= (if maxIter > 0 then maxIter else 0)
    && (maxIter > 0 ==> sweeps >= 1)
    && (forall t :: 1 <= t < sweeps ==> !RbConverged(M, b, x0, n, tol, t))
    && (0 < sweeps < maxIter ==> RbConverged(M, b, x0, n, tol, sweeps))
  }

  /** The residual test after t sweeps from x0. */
  predicate RbConverged(M: seq<seq<real>>, b: seq<real>, x0: seq<real>, n: int, tol: real, t: nat)
    requires NonZeroDiagonal(M) && |b| >= |M| && |x0| >= |M| && n >= 1
  {
    ResidualBelow(M, b, RbIterate(M, b, x0, n, t), tol)
  }

  /** Solves A x = B in place on a copy of x0 by red-black sweeps on the
      n-wide grid. */
  method Solve(A: Cds, B: array<real>, n: int, x0: array<real>, maxIter: int, tol: real, ghost M: seq<seq<real>>)
    returns (x: array<real>, ghost sweeps: nat)
    requires A.Valid() && A.HoldsRows(M) && NonZeroDiagonal(M) && n >= 1 && B.Length >= A.size && x0.Length >= A.size
    ensures fresh(x) && x.Length == x0.Length
    ensures RbStopped(M, B[..], x0[..], n, maxIter, tol, sweeps)
    ensures x[..A.size] == RbIterate(M, B[..], x0[..], n, sweeps)
    ensures x[A.size..] == x0[A.size..]
  {
    x := Clone(x0);
    sweeps := Iterate(A, B, n, x, maxIter, tol, M, x0[..]);
  }

  /** The iteration loop of the solver on x, a copy of x0. */
  method Iterate(A: Cds, B: array<real>, n: int, x: array<real>, maxIter: int, tol: real, ghost M: seq<seq<real>>, ghost start: seq<real>)
    returns (ghost sweeps: nat)
    requires A.Valid() && A.HoldsRows(M) && NonZeroDiagonal(M) && n >= 1 && B.Length >= A.size
    requires x[..] == start && |start| >= A.size && x != B && x !in A.Repr()
    modifies x
    ensures RbStopped(M, B[..], start, n, maxIter, tol, sweeps)
    ensures x[..A.size] == RbIterate(M, B[..], start, n, sweeps)
    ensures x[A.size..] == start[A.size..]
  {
    var size := A.GetSize();
    ghost var b := B[..];
    sweeps := 0;
    var k := 0;
    while k < maxIter
      invariant 0 <= k <= (if maxIter > 0 then maxIter else 0) && sweeps == k
      invariant x.Length == |start|
      invariant x[..size] == RbIterate(M, b, start, n, k)
      invariant x[size..] == start[size..]
      invariant forall t :: 1 <= t <= k ==> !RbConverged(M, b, start, n, tol, t)
      decreases maxIter - k
    {
      var residualNorm := Iteration(A, B, x, n, M, b, start, k);
      assert (tol > 0.0 && residualNorm < Sq(tol)) == RbConverged(M, b, start, n, tol, k + 1);
      if tol > 0.0 && residualNorm < Sq(tol) {
        sweeps := k + 1;
        return;
      }
      k := k + 1;
      sweeps := k;
    }
  }

  /** The body of the solver's loop: sweep k + 1 in place, then the squared
      residual norm of its result. */
  method Iteration(A: Cds, B: array<real>, x: array<real>, n: int, ghost M: seq<seq<real>>, ghost b: seq<real>, ghost start: seq<real>, ghost k: nat)
    returns (residualNorm: real)
    requires A.Valid() && A.HoldsRows(M) && NonZeroDiagonal(M) && n >= 1 && |start| >= A.size
    requires B.Length >= A.size && x.Length >= A.size && x != B && x !in A.Repr() && b == B[..]
    requires x[..A.size] == RbIterate(M, b, start, n, k)
    modifies x
    ensures x[..A.size] == RbIterate(M, b, start, n, k + 1)
    ensures x[A.size..] == old(x[A.size..])
    ensures residualNorm == ResidualNormSq(M, b, RbIterate(M, b, start, n, k + 1), FloorSqrt(|M|), |M|)
  {
    SweepCds(A, B, x, n, M, b);
    residualNorm := CalculateResidualNorm(A, B, x, M);
  }

  /** One sweep in place: the red phase, then the black phase. */
  method SweepCds(A: Cds, B: array<real>, x: array<real>, n: int, ghost M: seq<seq<real>>, ghost b: seq<real>)
    requires A.Valid() && A.HoldsRows(M) && NonZeroDiagonal(M) && n >= 1
    requires B.Length >= A.size && x.Length >= A.size && x != B && x !in A.Repr() && b == B[..]
    modifies x
    ensures x[..A.size] == RbSweep(M, b, old(x[..A.size]), n)
    ensures x[A.size..] == old(x[A.size..])
  {
    PhaseCds(A, B, x, n, true, M, b);
    PhaseCds(A, B, x, n, false, M, b);
  }

  /** One phase: every unknown of the given colour, in index order, gets
      its update in place. */
  method PhaseCds(A: Cds, B: array<real>, x: array<real>, n: int, red: bool, ghost M: seq<seq<real>>, ghost b: seq<real>)
    requires A.Valid() && A.HoldsRows(M) && NonZeroDiagonal(M) && n >= 1
    requires B.Length >= A.size && x.Length >= A.size && x != B && x !in A.Repr() && b == B[..]
    modifies x
    ensures x[..A.size] == Phase(M, b, old(x[..A.size]), n, red)
    ensures x[A.size..] == old(x[A.size..])
  {
    var size := A.GetSize();
    ghost var start := x[..size];
    for idx := 0 to size
      invariant x[..size] == PhaseUpTo(M, b, start, n, red, idx)
      invariant x[size..] == old(x[size..])
    {
      var i := idx % n;
      var j := idx / n;
      if ((i + j) % 2 == 0) == red {
        RelaxRow(A, B, x, idx, n, M, b);
      }
    }
  }

  /** The squared residual norm after a sweep, read with the probe width
      floor(sqrt(size)); the square root is left to the caller's test. */
  method CalculateResidualNorm(A: Cds, B: array<real>, x: array<real>, ghost M: seq<seq<real>>) returns (norm: real)
    requires A.Valid() && A.HoldsRows(M) && B.Length >= A.size && x.Length >= A.size
    ensures norm == ResidualNormSq(M, B[..], x[..A.size], FloorSqrt(A.size), A.size)
  {
    var size := A.GetSize();
    var w := FloorSqrt(size);
    ghost var b, xs := B[..], x[..size];
    norm := 0.0;
    for i := 0 to size
      invariant norm == ResidualNormSq(M, b, xs, w, i)
    {
      var residual_i := ResidualAt(A, B, x, i, w, M);
      norm := norm + Sq(residual_i);
    }
  }

  /** The body of the residual loop for row i: B[i] minus the diagonal term
      and the probes at the distance w. */
  method ResidualAt(A: Cds, B: array<real>, x: array<real>, i: int, w: nat, ghost M: seq<seq<real>>) returns (residual_i: real)
    requires A.Valid() && A.HoldsRows(M) && B.Length >= A.size && x.Length >= A.size && 0 <= i < A.size
    ensures residual_i == Residual(M, B[..], x[..A.size], i, w)
  {
    ghost var xs := x[..A.size];
    var diagonal := A.Get(i, i);
    assert diagonal == M[i][i] && x[i] == xs[i];
    var ax_i := diagonal * x[i] + CalculateSum(A, x, i, w, A.GetSize(), M);
    residual_i := B[i] - ax_i;
  }
}
