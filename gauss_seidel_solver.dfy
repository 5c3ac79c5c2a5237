// Gauss-Seidel iteration, in place: a sweep updates x[0], x[1], ... in
// order, each row reading the entries already updated in this sweep and the
// older ones after it. Both overloads work on a copy of x0 and return the
// whole copy; only its first size entries are ever touched. The CDS overload
// reads its vertical neighbours at the distance size / B.length.
module GaussSeidelSolver {
  import opened Storage
  import opened Sweeps
  import opened MatrixBuilder

  /** The vector after rows 0 .. k-1 of one in-place sweep from x. */
  function GsSweepUpTo(M: seq<seq<real>>, b: seq<real>, x: seq<real>, cp: Coupling, k: nat): (y: seq<real>)
    requires NonZeroDiagonal(M) && |b| >= |M| && |x| == |M| && k <= |M|
    ensures |y| == |M|
  {
    if k == 0 then x
    else
      var y := GsSweepUpTo(M, b, x, cp, k - 1);
      y[k - 1 := RowUpdate(M, b, y, k - 1, cp)]
  }

  /** One whole sweep. */
  function GsSweep(M: seq<seq<real>>, b: seq<real>, x: seq<real>, cp: Coupling): (y: seq<real>)
    requires NonZeroDiagonal(M) && |b| >= |M| && |x| == |M|
  {
    GsSweepUpTo(M, b, x, cp, |M|)
  }

  /** The first size entries of the iterate after k sweeps from x0. */
  function GsIterate(M: seq<seq<real>>, b: seq<real>, x0: seq<real>, cp: Coupling, k: nat): (x: seq<real>)
    requires NonZeroDiagonal(M) && |b| >= |M| && |x0| >= |M|
    ensures |x| == |M|
  {
    if k == 0 then x0[..|M|] else GsSweep(M, b, GsIterate(M, b, x0, cp, k - 1), cp)
  }

  /** Rows k and later are still those of x after the first k updates. */
  lemma {:induction false} GsSweepUpToFrame(M: seq<seq<real>>, b: seq<real>, x: seq<real>, cp: Coupling, k: nat)
    requires NonZeroDiagonal(M) && |b| >= |M| && |x| == |M| && k <= |M|
    ensures forall p :: k <= p < |M| ==> GsSweepUpTo(M, b, x, cp, k)[p] == x[p]
  {
    if k > 0 {
      GsSweepUpToFrame(M, b, x, cp, k - 1);
    }
  }

  /** Once row p is updated, later updates of the sweep leave it alone. */
  lemma {:induction false} GsSweepUpToStable(M: seq<seq<real>>, b: seq<real>, x: seq<real>, cp: Coupling, k: nat, k2: nat)
    requires NonZeroDiagonal(M) && |b| >= |M| && |x| == |M| && k <= k2 <= |M|
    ensures forall p :: 0 <= p < k ==> GsSweepUpTo(M, b, x, cp, k2)[p] == GsSweepUpTo(M, b, x, cp, k)[p]
  {
    if k < k2 {
      GsSweepUpToStable(M, b, x, cp, k, k2 - 1);
    }
  }

  /** The vector row i of a sweep reads: the new entries before i, the old
      ones from i on. */
  lemma GsSweepUpToSplit(M: seq<seq<real>>, b: seq<real>, x: seq<real>, cp: Coupling, i: nat)
    requires NonZeroDiagonal(M) && |b| >= |M| && |x| == |M| && i <= |M|
    ensures GsSweepUpTo(M, b, x, cp, i) == GsSweep(M, b, x, cp)[..i] + x[i..]
  {
    GsSweepUpToFrame(M, b, x, cp, i);
    GsSweepUpToStable(M, b, x, cp, i, |M|);
  }

  /** The Gauss-Seidel property: entry i of a sweep is the row update of i
      on the vector that already holds the sweep's entries before i. */
  lemma GsSweepEntries(M: seq<seq<real>>, b: seq<real>, x: seq<real>, cp: Coupling, i: nat)
    requires NonZeroDiagonal(M) && |b| >= |M| && |x| == |M| && i < |M|
    ensures GsSweep(M, b, x, cp)[i] == RowUpdate(M, b, GsSweep(M, b, x, cp)[..i] + x[i..], i, cp)
  {
    GsSweepUpToSplit(M, b, x, cp, i);
    GsSweepUpToStable(M, b, x, cp, i + 1, |M|);
  }

  /** A vector that satisfies every row is left alone by every update. */
  lemma {:induction false} GsSweepUpToOfSolution(M: seq<seq<real>>, b: seq<real>, x: seq<real>, cp: Coupling, k: nat)
    requires NonZeroDiagonal(M) && |b| >= |M| && |x| == |M| && k <= |M| && Satisfies(M, b, x, cp)
    ensures GsSweepUpTo(M, b, x, cp, k) == x
  {
    if k > 0 {
      GsSweepUpToOfSolution(M, b, x, cp, k - 1);
      RowUpdateFixed(M, b, x, k - 1, cp);
    }
  }

  /** A vector is left unchanged by a sweep exactly when it satisfies every
      row of the system as the sweep reads the rows. */
  lemma GsFixedPoint(M: seq<seq<real>>, b: seq<real>, x: seq<real>, cp: Coupling)
    requires NonZeroDiagonal(M) && |b| >= |M| && |x| == |M|
    ensures GsSweep(M, b, x, cp) == x <==> Satisfies(M, b, x, cp)
  {
    if Satisfies(M, b, x, cp) {
      GsSweepUpToOfSolution(M, b, x, cp, |M|);
    }
    if GsSweep(M, b, x, cp) == x {
      forall i | 0 <= i < |M|
        ensures RowHolds(M, b, x, i, cp)
      {
        GsSweepUpToSplit(M, b, x, cp, i);
        assert GsSweepUpTo(M, b, x, cp, i) == x;
        GsSweepUpToStable(M, b, x, cp, i + 1, |M|);
        RowUpdateFixed(M, b, x, i, cp);
      }
    }
  }

  /** The dense sweep leaves x unchanged exactly when x solves A x = b. */
  lemma DenseGsFixedPointSolves(M: seq<seq<real>>, b: seq<real>, x: seq<real>)
    requires NonZeroDiagonal(M) && |b| >= |M| && |x| == |M|
    ensures GsSweep(M, b, x, FullRow) == x <==> Solves(M, b, x)
  {
    GsFixedPoint(M, b, x, FullRow);
    FullRowSatisfiesIffSolves(M, b, x);
  }

  /** On a five-diagonal matrix read with its own width n >= 2, the probe
      updates are the whole-row updates, row by row. */
  lemma {:induction false} GsSweepUpToCouplingsAgree(M: seq<seq<real>>, n: int, b: seq<real>, x: seq<real>, k: nat)
    requires NonZeroDiagonal(M) && OnFiveDiagonals(M, n) && n >= 2 && |b| >= |M| && |x| == |M| && k <= |M|
    ensures GsSweepUpTo(M, b, x, Neighbours(n), k) == GsSweepUpTo(M, b, x, FullRow, k)
  {
    if k > 0 {
      GsSweepUpToCouplingsAgree(M, n, b, x, k - 1);
      CouplingsAgree(M, n, GsSweepUpTo(M, b, x, FullRow, k - 1), k - 1);
    }
  }

  /** ... and so the probe solver runs exactly the dense solver's iterates. */
  lemma {:induction false} GsCouplingsAgree(M: seq<seq<real>>, n: int, b: seq<real>, x0: seq<real>, k: nat)
    requires NonZeroDiagonal(M) && OnFiveDiagonals(M, n) && n >= 2 && |b| >= |M| && |x0| >= |M|
    ensures GsIterate(M, b, x0, Neighbours(n), k) == GsIterate(M, b, x0, FullRow, k)
  {
    if k > 0 {
      GsCouplingsAgree(M, n, b, x0, k - 1);
      GsSweepUpToCouplingsAgree(M, n, b, GsIterate(M, b, x0, FullRow, k - 1), |M|);
    }
  }

  /** The largest change made by sweep t. */
  function GsChange(M: seq<seq<real>>, b: seq<real>, x0: seq<real>, cp: Coupling, t: nat): real
    requires NonZeroDiagonal(M) && |b| >= |M| && |x0| >= |M| && t >= 1
  {
    MaxDiff(GsIterate(M, b, x0, cp, t), GsIterate(M, b, x0, cp, t - 1), |M|)
  }

  /** The stopping rule: at most maxIter sweeps ran (at least one when
      maxIter > 0), every earlier sweep changed some entry by tol or more,
      and unless the budget ran out the last sweep changed every entry by
      less than tol. */
  predicate GsStopped(M: seq<seq<real>>, b: seq<real>, x0: seq<real>, cp: Coupling, maxIter: int, tol: real, sweeps: nat)
    requires NonZeroDiagonal(M) && |b| >= |M| && |x0| >= |M|
  {
    && sweeps <= (if maxIter > 0 then maxIter else 0)
    && (maxIter > 0 ==> sweeps >= 1)
    && (forall t :: 1 <= t < sweeps ==> GsChange(M, b, x0, cp, t) >= tol)
    && (0 < sweeps < maxIter ==> GsChange(M, b, x0, cp, sweeps) < tol)
  }

  /** The vertical distance the CDS solver probes: size / B.length, which
      is only evaluated inside the sweep, where B.length > 0. */
  function AsWrittenWidth(size: nat, bLength: nat): nat
  {
    if bLength == 0 then 0 else size / bLength
  }

  /** Solves A x = B in place on a copy of x0, probing the four
      neighbours at the distance size / B.length: with one entry of B per
      unknown that distance is 1, not the grid width. */
  method SolveCds(A: Cds, B: array<real>, x0: array<real>, maxIter: int, tol: real, ghost M: seq<seq<real>>) returns (x: array<real>, ghost sweeps: nat)
    requires A.Valid() && A.HoldsRows(M) && NonZeroDiagonal(M) && B.Length >= A.size && x0.Length >= A.size
    ensures fresh(x) && x.Length == x0.Length
    ensures GsStopped(M, B[..], x0[..], Neighbours(AsWrittenWidth(A.size, B.Length)), maxIter, tol, sweeps)
    ensures x[..A.size] == GsIterate(M, B[..], x0[..], Neighbours(AsWrittenWidth(A.size, B.Length)), sweeps)
    ensures x[A.size..] == x0[A.size..]
  {
    var w := AsWrittenWidth(A.GetSize(), B.Length);
    x := Clone(x0);
    sweeps := IterateCds(A, B, x, w, maxIter, tol, M, x0[..]);
  }

  /** The iteration loop of the CDS solver on x, a copy of x0, probing its
      vertical neighbours at the distance w; with w the grid width n it is
      the intended solver. */
  method IterateCds(A: Cds, B: array<real>, x: array<real>, w: nat, maxIter: int, tol: real, ghost M: seq<seq<real>>, ghost start: seq<real>)
    returns (ghost sweeps: nat)
    requires A.Valid() && A.HoldsRows(M) && NonZeroDiagonal(M) && B.Length >= A.size
    requires x[..] == start && |start| >= A.size && x != B && x !in A.Repr()
    modifies x
    ensures GsStopped(M, B[..], start, Neighbours(w), maxIter, tol, sweeps)
    ensures x[..A.size] == GsIterate(M, B[..], start, Neighbours(w), sweeps)
    ensures x[A.size..] == start[A.size..]
  {
    var size := A.GetSize();
    ghost var b, cp := B[..], Neighbours(w);
    sweeps := 0;
    var k := 0;
    while k < maxIter
      invariant 0 <= k <= (if maxIter > 0 then maxIter else 0) && sweeps == k
      invariant x.Length == |start|
      invariant x[..size] == GsIterate(M, b, start, cp, k)
      invariant x[size..] == start[size..]
      invariant forall t :: 1 <= t <= k ==> GsChange(M, b, start, cp, t) >= tol
      decreases maxIter - k
    {
      var maxDiff := SweepCds(A, B, x, w, M, b);
      if maxDiff < tol {
        sweeps := k + 1;
        return;
      }
      k := k + 1;
      sweeps := k;
    }
  }

  /** One in-place sweep of the CDS solver, returning its largest change. */
  method SweepCds(A: Cds, B: array<real>, x: array<real>, w: nat, ghost M: seq<seq<real>>, ghost b: seq<real>) returns (maxDiff: real)
    requires A.Valid() && A.HoldsRows(M) && NonZeroDiagonal(M)
    requires B.Length >= A.size && x.Length >= A.size && x != B && x !in A.Repr() && b == B[..]
    modifies x
    ensures x[..A.size] == GsSweep(M, b, old(x[..A.size]), Neighbours(w))
    ensures x[A.size..] == old(x[A.size..])
    ensures maxDiff == MaxDiff(x[..A.size], old(x[..A.size]), A.size)
  {
    var size := A.GetSize();
    ghost var start, cp := x[..size], Neighbours(w);
    maxDiff := 0.0;
    for i := 0 to size
      invariant x[..size] == GsSweepUpTo(M, b, start, cp, i)
      invariant x[size..] == old(x[size..])
      invariant maxDiff == MaxDiff(x[..size], start, i)
    {
      ghost var before := x[..size];
      GsSweepUpToFrame(M, b, start, cp, i);
      var old_xi := x[i];
      RelaxRow(A, B, x, i, w, M, b);
      MaxDiffLocal(before, x[..size], start, i);
      var diff := Abs(x[i] - old_xi);
      if diff > maxDiff {
        maxDiff := diff;
      }
    }
  }

  /** With one entry of B per unknown the as-written distance is 1. */
  lemma AsWrittenWidthIsOne(size: nat)
    requires size > 0
    ensures AsWrittenWidth(size, size) == 1
  {
  }

  /** The operator of the 2 x 2 grid with l = h = 1. */
  function Grid2x2(): (M: seq<seq<real>>)
    ensures IsLaplacianMatrix(M, 2, 2, 1.0, 1.0)
  {
    [[4.0, -1.0, -1.0, 0.0], [-1.0, 4.0, 0.0, -1.0], [-1.0, 0.0, 4.0, -1.0], [0.0, -1.0, -1.0, 4.0]]
  }

  /** The as-written CDS solver moves the exact solution: on the 2 x 2 grid
      with x = (1, 2, 3, 4) and B = A x = (-1, 3, 7, 11), its first sweep
      reads the right neighbour twice and the upper one never, and sets x[0]
      to 3/4. */
  lemma AsWrittenWidthMovesExactSolution()
    ensures Solves(Grid2x2(), [-1.0, 3.0, 7.0, 11.0], [1.0, 2.0, 3.0, 4.0])
    ensures GsSweep(Grid2x2(), [-1.0, 3.0, 7.0, 11.0], [1.0, 2.0, 3.0, 4.0], Neighbours(AsWrittenWidth(4, 4)))[0] == 0.75
  {
    var M, b, x := Grid2x2(), [-1.0, 3.0, 7.0, 11.0], [1.0, 2.0, 3.0, 4.0];
    assert RowDot(M, x, 0, 4) == -1.0;
    assert RowDot(M, x, 1, 4) == 3.0;
    assert RowDot(M, x, 2, 4) == 7.0;
    assert RowDot(M, x, 3, 4) == 11.0;
    assert NeighbourSum(M, x, 0, 1) == -4.0;
    GsSweepUpToStable(M, b, x, Neighbours(1), 1, 4);
  }

  /** The operator of the grid one point wide and two points high, with
      l = h = 1. */
  function Grid1x2(): (M: seq<seq<real>>)
    ensures IsLaplacianMatrix(M, 1, 2, 1.0, 1.0)
  {
    [[4.0, -1.0], [-1.0, 4.0]]
  }

  /** Why width 1 is excluded: there the +1 and +n probes reach the same
      neighbour, so the probes count the vertical link twice where the row
      holds it once. */
  lemma UnitWidthCountsLinksTwice(x: seq<real>)
    requires |x| == 2
    ensures OffDiagonal(Grid1x2(), x, 0, Neighbours(1)) == -2.0 * x[1]
    ensures OffDiagonal(Grid1x2(), x, 0, FullRow) == -1.0 * x[1]
  {
    var M := Grid1x2();
    assert OffDiagonalSum(M, x, 0, 1) == 0.0;
  }

  /** With the grid width n >= 2 the CDS sweep keeps a vector exactly when
      it solves the system, and it runs the dense solver's iterates. */
  lemma GridWidthSweepSolves(M: seq<seq<real>>, n: int, m: int, valX: real, valY: real, b: seq<real>, x: seq<real>, k: nat)
    requires IsLaplacianMatrix(M, n, m, valX, valY) && valX + valY != 0.0 && n >= 2 && |b| >= |M| && |x| == |M|
    ensures NonZeroDiagonal(M)
    ensures GsSweep(M, b, x, Neighbours(n)) == x <==> Solves(M, b, x)
    ensures GsIterate(M, b, x, Neighbours(n), k) == GsIterate(M, b, x, FullRow, k)
  {
    LaplacianDiagonal(M, n, m, valX, valY);
    LaplacianOnFiveDiagonals(M, n, m, valX, valY);
    GsFixedPoint(M, b, x, Neighbours(n));
    NeighboursSatisfyIffSolves(M, n, b, x);
    GsCouplingsAgree(M, n, b, x, k);
  }

  /** Solves A x = B in place on a copy of x0 for a dense n x n matrix,
      summing over every column j != i. */
  method SolveDense(A: array2<real>, B: array<real>, x0: array<real>, maxIter: int, tol: real, ghost M: seq<seq<real>>) returns (x: array<real>, ghost sweeps: nat)
    requires DenseHolds(A, M) && NonZeroDiagonal(M) && B.Length >= A.Length0 && x0.Length >= A.Length0
    ensures fresh(x) && x.Length == x0.Length
    ensures GsStopped(M, B[..], x0[..], FullRow, maxIter, tol, sweeps)
    ensures x[..A.Length0] == GsIterate(M, B[..], x0[..], FullRow, sweeps)
    ensures x[A.Length0..] == x0[A.Length0..]
  {
    x := Clone(x0);
    sweeps := IterateDense(A, B, x, maxIter, tol, M, x0[..]);
  }

  /** The iteration loop of the dense solver on x, a copy of x0. */
  method IterateDense(A: array2<real>, B: array<real>, x: array<real>, maxIter: int, tol: real, ghost M: seq<seq<real>>, ghost start: seq<real>)
    returns (ghost sweeps: nat)
    requires DenseHolds(A, M) && NonZeroDiagonal(M) && B.Length >= A.Length0
    requires x[..] == start && |start| >= A.Length0 && x != B
    modifies x
    ensures GsStopped(M, B[..], start, FullRow, maxIter, tol, sweeps)
    ensures x[..A.Length0] == GsIterate(M, B[..], start, FullRow, sweeps)
    ensures x[A.Length0..] == start[A.Length0..]
  {
    var n := A.Length0;
    ghost var b := B[..];
    sweeps := 0;
    var k := 0;
    while k < maxIter
      invariant 0 <= k <= (if maxIter > 0 then maxIter else 0) && sweeps == k
      invariant x.Length == |start|
      invariant x[..n] == GsIterate(M, b, start, FullRow, k)
      invariant x[n..] == start[n..]
      invariant forall t :: 1 <= t <= k ==> GsChange(M, b, start, FullRow, t) >= tol
      decreases maxIter - k
    {
      var maxDiff := SweepDense(A, B, x, M, b);
      if maxDiff < tol {
        sweeps := k + 1;
        return;
      }
      k := k + 1;
      sweeps := k;
    }
  }

  /** One in-place sweep of the dense solver, returning its largest change. */
  method SweepDense(A: array2<real>, B: array<real>, x: array<real>, ghost M: seq<seq<real>>, ghost b: seq<real>) returns (maxDiff: real)
    requires DenseHolds(A, M) && NonZeroDiagonal(M)
    requires B.Length >= A.Length0 && x.Length >= A.Length0 && x != B && b == B[..]
    modifies x
    ensures x[..A.Length0] == GsSweep(M, b, old(x[..A.Length0]), FullRow)
    ensures x[A.Length0..] == old(x[A.Length0..])
    ensures maxDiff == MaxDiff(x[..A.Length0], old(x[..A.Length0]), A.Length0)
  {
    var n := A.Length0;
    ghost var start := x[..n];
    maxDiff := 0.0;
    for i := 0 to n
      invariant x[..n] == GsSweepUpTo(M, b, start, FullRow, i)
      invariant x[n..] == old(x[n..])
      invariant maxDiff == MaxDiff(x[..n], start, i)
    {
      ghost var before := x[..n];
      GsSweepUpToFrame(M, b, start, FullRow, i);
      var sum := 0.0;
      for j := 0 to n
        invariant sum == OffDiagonalSum(M, before, i, j)
      {
        if i != j {
          sum := sum + A[i, j] * x[j];
        }
      }
      var old_xi := x[i];
      x[i] := (B[i] - sum) / A[i, i];
      assert x[..n] == before[i := x[i]];
      MaxDiffLocal(before, x[..n], start, i);
      var diff := Abs(x[i] - old_xi);
      if diff > maxDiff {
        maxDiff := diff;
      }
    }
  }
}
