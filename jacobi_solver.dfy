// Jacobi iteration, double-buffered: every sweep computes a fresh x from the
// previous iterate x_old only, then copies x into x_old. Both overloads are
// specified over the matrix as rows; the CDS one reads its neighbours with
// the width floor(sqrt(size)), the dense one sums over every column j != i.
module JacobiSolver {
  import opened Storage
  import opened Sweeps

  /** The first k entries of one sweep. */
  function JacobiSweepUpTo(M: seq<seq<real>>, b: seq<real>, xOld: seq<real>, cp: Coupling, k: nat): (x: seq<real>)
    requires NonZeroDiagonal(M) && |b| >= |M| && |xOld| >= |M| && k <= |M|
    ensures |x| == k
  {
    if k == 0 then [] else JacobiSweepUpTo(M, b, xOld, cp, k - 1) + [RowUpdate(M, b, xOld, k - 1, cp)]
  }

  /** Every entry of a sweep is computed from xOld alone. */
  lemma {:induction false} JacobiSweepEntries(M: seq<seq<real>>, b: seq<real>, xOld: seq<real>, cp: Coupling, k: nat)
    requires NonZeroDiagonal(M) && |b| >= |M| && |xOld| >= |M| && k <= |M|
    ensures forall i :: 0 <= i < k ==> JacobiSweepUpTo(M, b, xOld, cp, k)[i] == RowUpdate(M, b, xOld, i, cp)
  {
    if k > 0 {
      JacobiSweepEntries(M, b, xOld, cp, k - 1);
    }
  }

  /** One sweep: a new vector of length size. */
  function JacobiSweep(M: seq<seq<real>>, b: seq<real>, xOld: seq<real>, cp: Coupling): (x: seq<real>)
    requires NonZeroDiagonal(M) && |b| >= |M| && |xOld| >= |M|
  {
    JacobiSweepUpTo(M, b, xOld, cp, |M|)
  }

  /** The iterate after k sweeps from x0 (only its first size entries are
      ever read). */
  function JacobiIterate(M: seq<seq<real>>, b: seq<real>, x0: seq<real>, cp: Coupling, k: nat): (x: seq<real>)
    requires NonZeroDiagonal(M) && |b| >= |M| && |x0| >= |M|
    ensures |x| == |M|
  {
    if k == 0 then x0[..|M|] else JacobiSweep(M, b, JacobiIterate(M, b, x0, cp, k - 1), cp)
  }

  /** A vector is left unchanged by a sweep exactly when it satisfies every
      row of the system as the sweep reads the rows. */
  lemma JacobiFixedPoint(M: seq<seq<real>>, b: seq<real>, x: seq<real>, cp: Coupling)
    requires NonZeroDiagonal(M) && |b| >= |M| && |x| == |M|
    ensures JacobiSweep(M, b, x, cp) == x <==> Satisfies(M, b, x, cp)
  {
    var y := JacobiSweep(M, b, x, cp);
    JacobiSweepEntries(M, b, x, cp, |M|);
    forall i | 0 <= i < |M|
      ensures y[i] == x[i] <==> RowHolds(M, b, x, i, cp)
    {
      RowUpdateFixed(M, b, x, i, cp);
    }
    if Satisfies(M, b, x, cp) {
      assert forall i :: 0 <= i < |M| ==> y[i] == x[i];
    }
  }

  /** The dense sweep leaves x unchanged exactly when x solves A x = b. */
  lemma DenseJacobiFixedPointSolves(M: seq<seq<real>>, b: seq<real>, x: seq<real>)
    requires NonZeroDiagonal(M) && |b| >= |M| && |x| == |M|
    ensures JacobiSweep(M, b, x, FullRow) == x <==> Solves(M, b, x)
  {
    JacobiFixedPoint(M, b, x, FullRow);
    FullRowSatisfiesIffSolves(M, b, x);
  }

  /** On a five-diagonal matrix read with its own width n >= 2, the probe
      sweeps run exactly the iterates of the whole-row sweeps. */
  lemma {:induction false} JacobiCouplingsAgree(M: seq<seq<real>>, n: int, b: seq<real>, x0: seq<real>, k: nat)
    requires NonZeroDiagonal(M) && OnFiveDiagonals(M, n) && n >= 2 && |b| >= |M| && |x0| >= |M|
    ensures JacobiIterate(M, b, x0, Neighbours(n), k) == JacobiIterate(M, b, x0, FullRow, k)
  {
    if k > 0 {
      JacobiCouplingsAgree(M, n, b, x0, k - 1);
      var x := JacobiIterate(M, b, x0, FullRow, k - 1);
      JacobiSweepEntries(M, b, x, Neighbours(n), |M|);
      JacobiSweepEntries(M, b, x, FullRow, |M|);
      forall i | 0 <= i < |M|
        ensures RowUpdate(M, b, x, i, Neighbours(n)) == RowUpdate(M, b, x, i, FullRow)
      {
        CouplingsAgree(M, n, x, i);
      }
    }
  }

  /** On an n x n grid (n >= 2) the CDS solver's width floor(sqrt(size)) is
      n, so it runs exactly the iterates of the dense solver on the same
      five-diagonal matrix. */
  lemma JacobiSolversAgreeOnSquareGrid(M: seq<seq<real>>, n: nat, b: seq<real>, x0: seq<real>, k: nat)
    requires NonZeroDiagonal(M) && |M| == n * n && OnFiveDiagonals(M, n) && n >= 2 && |b| >= |M| && |x0| >= |M|
    ensures JacobiIterate(M, b, x0, Neighbours(FloorSqrt(|M|)), k) == JacobiIterate(M, b, x0, FullRow, k)
  {
    FloorSqrtOfSquare(n);
    JacobiCouplingsAgree(M, n, b, x0, k);
  }

  /** The largest change made by sweep t. */
  function JacobiChange(M: seq<seq<real>>, b: seq<real>, x0: seq<real>, cp: Coupling, t: nat): real
    requires NonZeroDiagonal(M) && |b| >= |M| && |x0| >= |M| && t >= 1
  {
    MaxDiff(JacobiIterate(M, b, x0, cp, t), JacobiIterate(M, b, x0, cp, t - 1), |M|)
  }

  /** The stopping rule: at most maxIter sweeps ran (at least one when
      maxIter > 0), every earlier sweep changed some entry by tol or more,
      and unless the budget ran out the last sweep changed every entry by
      less than tol. */
  predicate JacobiStopped(M: seq<seq<real>>, b: seq<real>, x0: seq<real>, cp: Coupling, maxIter: int, tol: real, sweeps: nat)
    requires NonZeroDiagonal(M) && |b| >= |M| && |x0| >= |M|
  {
    && sweeps <= (if maxIter > 0 then maxIter else 0)
    && (maxIter > 0 ==> sweeps >= 1)
    && (forall t :: 1 <= t < sweeps ==> JacobiChange(M, b, x0, cp, t) >= tol)
    && (0 < sweeps < maxIter ==> JacobiChange(M, b, x0, cp, sweeps) < tol)
  }

  /** Solves A x = B for a CDS matrix held as M; returns the iterate after
      `sweeps` sweeps with the width floor(sqrt(size)). Without any sweep
      the result is the freshly allocated zero vector. */
  method SolveCds(A: Cds, B: array<real>, x0: array<real>, maxIter: int, tol: real, ghost M: seq<seq<real>>) returns (x: array<real>, ghost sweeps: nat)
    requires A.Valid() && A.HoldsRows(M) && NonZeroDiagonal(M) && B.Length >= A.size && x0.Length >= A.size
    ensures fresh(x) && x.Length == A.size
    ensures JacobiStopped(M, B[..], x0[..], Neighbours(FloorSqrt(A.size)), maxIter, tol, sweeps)
    ensures sweeps == 0 ==> forall i :: 0 <= i < A.size ==> x[i] == 0.0
    ensures sweeps > 0 ==> x[..] == JacobiIterate(M, B[..], x0[..], Neighbours(FloorSqrt(A.size)), sweeps)
  {
    var size := A.GetSize();
    var gridWidth := FloorSqrt(size);
    x := new real[size](_ => 0.0);
    var xOld := Clone(x0);
    sweeps := Iterate(A, B, x, xOld, gridWidth, maxIter, tol, M, x0[..]);
  }

  /** The iteration loop of the CDS solver, on the zeroed x and the copy
      xOld of the initial guess x0. */
  method Iterate(A: Cds, B: array<real>, x: array<real>, xOld: array<real>, w: nat, maxIter: int, tol: real, ghost M: seq<seq<real>>, ghost start: seq<real>)
    returns (ghost sweeps: nat)
    requires A.Valid() && A.HoldsRows(M) && NonZeroDiagonal(M) && B.Length >= A.size
    requires x.Length == A.size && xOld[..] == start && |start| >= A.size
    requires x != xOld && x != B && xOld != B && x !in A.Repr() && xOld !in A.Repr()
    requires forall i :: 0 <= i < A.size ==> x[i] == 0.0
    modifies x, xOld
    ensures JacobiStopped(M, B[..], start, Neighbours(w), maxIter, tol, sweeps)
    ensures sweeps == 0 ==> forall i :: 0 <= i < A.size ==> x[i] == 0.0
    ensures sweeps > 0 ==> x[..] == JacobiIterate(M, B[..], start, Neighbours(w), sweeps)
  {
    var size := A.GetSize();
    ghost var b, cp := B[..], Neighbours(w);
    sweeps := 0;
    var k := 0;
    while k < maxIter
      invariant 0 <= k <= (if maxIter > 0 then maxIter else 0) && sweeps == k
      invariant xOld.Length == |start|
      invariant xOld[..size] == JacobiIterate(M, b, start, cp, k)
      invariant k == 0 ==> forall i :: 0 <= i < size ==> x[i] == 0.0
      invariant k > 0 ==> x[..] == xOld[..size]
      invariant forall t :: 1 <= t <= k ==> JacobiChange(M, b, start, cp, t) >= tol
      decreases maxIter - k
    {
      var maxDiff := Step(A, B, xOld, x, w, M, b, start, k);
      if maxDiff < tol {
        sweeps := k + 1;
        return;
      }
      CopyPrefix(x, xOld);
      k := k + 1;
      sweeps := k;
    }
    if k > 0 {
      assert x[..] == xOld[..size];
    }
  }

  /** `System.arraycopy(x, 0, xOld, 0, x.length)`. */
  method CopyPrefix(x: array<real>, xOld: array<real>)
    requires x.Length <= xOld.Length && x != xOld
    modifies xOld
    ensures xOld[..x.Length] == x[..]
    ensures xOld[x.Length..] == old(xOld[x.Length..])
  {
    forall t | 0 <= t < x.Length {
      xOld[t] := x[t];
    }
    assert xOld[..x.Length] == x[..];
  }

  /** One pass of the CDS solver's loop up to its convergence test: sweep
      k + 1 into x, then the largest change against xOld. */
  method Step(A: Cds, B: array<real>, xOld: array<real>, x: array<real>, w: nat, ghost M: seq<seq<real>>, ghost b: seq<real>, ghost start: seq<real>, ghost k: nat)
    returns (maxDiff: real)
    requires A.Valid() && A.HoldsRows(M) && NonZeroDiagonal(M)
    requires B.Length >= A.size && xOld.Length >= A.size && x.Length == A.size && |start| >= A.size
    requires x != xOld && x != B && x !in A.Repr() && b == B[..]
    requires xOld[..A.size] == JacobiIterate(M, b, start, Neighbours(w), k)
    modifies x
    ensures x[..] == JacobiIterate(M, b, start, Neighbours(w), k + 1)
    ensures maxDiff == JacobiChange(M, b, start, Neighbours(w), k + 1)
  {
    Sweep(A, B, xOld, x, w, M);
    maxDiff := MaxChange(x, xOld, A.size);
    assert x[..A.size] == x[..];
  }

  /** The sweep loop of the CDS solver: x receives one sweep computed from
      xOld, which it does not alias, through the four guarded probes. */
  method Sweep(A: Cds, B: array<real>, xOld: array<real>, x: array<real>, w: nat, ghost M: seq<seq<real>>)
    requires A.Valid() && A.HoldsRows(M) && NonZeroDiagonal(M)
    requires B.Length >= A.size && xOld.Length >= A.size && x.Length == A.size
    requires x != xOld && x != B && x !in A.Repr()
    modifies x
    ensures x[..] == JacobiSweep(M, B[..], xOld[..A.size], Neighbours(w))
  {
    var size := A.GetSize();
    ghost var b, old_x := B[..], xOld[..size];
    for i := 0 to size
      invariant forall t :: 0 <= t < i ==> x[t] == RowUpdate(M, b, old_x, t, Neighbours(w))
    {
      var sum := CalculateSum(A, xOld, i, w, size, M);
      var diagonal := A.Get(i, i);
      assert diagonal == M[i][i];
      x[i] := (B[i] - sum) / diagonal;
    }
    JacobiSweepEntries(M, b, old_x, Neighbours(w), size);
  }

  /** Solves A x = B for a dense n x n matrix held as M, with the same
      double buffer and stopping rule as the CDS solver. */
  method SolveDense(A: array2<real>, B: array<real>, x0: array<real>, maxIter: int, tol: real, ghost M: seq<seq<real>>) returns (x: array<real>, ghost sweeps: nat)
    requires DenseHolds(A, M) && NonZeroDiagonal(M) && B.Length >= A.Length0 && x0.Length >= A.Length0
    ensures fresh(x) && x.Length == A.Length0
    ensures JacobiStopped(M, B[..], x0[..], FullRow, maxIter, tol, sweeps)
    ensures sweeps == 0 ==> forall i :: 0 <= i < A.Length0 ==> x[i] == 0.0
    ensures sweeps > 0 ==> x[..] == JacobiIterate(M, B[..], x0[..], FullRow, sweeps)
  {
    x := new real[A.Length0](_ => 0.0);
    var xOld := Clone(x0);
    sweeps := IterateDense(A, B, x, xOld, maxIter, tol, M, x0[..]);
  }

  /** The iteration loop of the dense solver, on the zeroed x and the copy
      xOld of the initial guess x0. */
  method IterateDense(A: array2<real>, B: array<real>, x: array<real>, xOld: array<real>, maxIter: int, tol: real, ghost M: seq<seq<real>>, ghost start: seq<real>)
    returns (ghost sweeps: nat)
    requires DenseHolds(A, M) && NonZeroDiagonal(M) && B.Length >= A.Length0
    requires x.Length == A.Length0 && xOld[..] == start && |start| >= A.Length0
    requires x != xOld && x != B && xOld != B
    requires forall i :: 0 <= i < A.Length0 ==> x[i] == 0.0
    modifies x, xOld
    ensures JacobiStopped(M, B[..], start, FullRow, maxIter, tol, sweeps)
    ensures sweeps == 0 ==> forall i :: 0 <= i < A.Length0 ==> x[i] == 0.0
    ensures sweeps > 0 ==> x[..] == JacobiIterate(M, B[..], start, FullRow, sweeps)
  {
    var n := A.Length0;
    ghost var b := B[..];
    sweeps := 0;
    var k := 0;
    while k < maxIter
      invariant 0 <= k <= (if maxIter > 0 then maxIter else 0) && sweeps == k
      invariant xOld.Length == |start|
      invariant xOld[..n] == JacobiIterate(M, b, start, FullRow, k)
      invariant k == 0 ==> forall i :: 0 <= i < n ==> x[i] == 0.0
      invariant k > 0 ==> x[..] == xOld[..n]
      invariant forall t :: 1 <= t <= k ==> JacobiChange(M, b, start, FullRow, t) >= tol
      decreases maxIter - k
    {
      DenseSweep(A, B, xOld, x, M);
      assert x[..] == JacobiIterate(M, b, start, FullRow, k + 1);
      var maxDiff := MaxChange(x, xOld, n);
      assert x[..n] == x[..];
      assert maxDiff == JacobiChange(M, b, start, FullRow, k + 1);
      if maxDiff < tol {
        sweeps := k + 1;
        return;
      }
      CopyPrefix(x, xOld);
      k := k + 1;
      sweeps := k;
    }
    if k > 0 {
      assert x[..] == xOld[..n];
    }
  }

  /** The sweep loop of the dense solver, with the inner loop over every
      column j != i. */
  method DenseSweep(A: array2<real>, B: array<real>, xOld: array<real>, x: array<real>, ghost M: seq<seq<real>>)
    requires DenseHolds(A, M) && NonZeroDiagonal(M)
    requires B.Length >= A.Length0 && xOld.Length >= A.Length0 && x.Length == A.Length0
    requires x != xOld && x != B
    modifies x
    ensures x[..] == JacobiSweep(M, B[..], xOld[..A.Length0], FullRow)
  {
    var n := A.Length0;
    ghost var b, old_x := B[..], xOld[..n];
    for i := 0 to n
      invariant forall t :: 0 <= t < i ==> x[t] == RowUpdate(M, b, old_x, t, FullRow)
    {
      var sum := 0.0;
      for j := 0 to n
        invariant sum == OffDiagonalSum(M, old_x, i, j)
      {
        if i != j {
          sum := sum + A[i, j] * xOld[j];
        }
      }
      x[i] := (B[i] - sum) / A[i, i];
    }
    JacobiSweepEntries(M, b, old_x, FullRow, n);
  }
}
