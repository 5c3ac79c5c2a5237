# finite-volume-2D-solver — the sparse linear-algebra core in Dafny

The program solves the discrete Poisson problem −Δu = f on the unit square,
with Dirichlet values g, on an n × m grid of interior points. Grid point
(i, j) is unknown number `idx = j·n + i`. This project models the part that
does the numerical work:

- **Compressed diagonal storage** (`storage/CDS.java`) is the module
  `Storage`. The class `Cds` keeps the five diagonals of the 5-point stencil
  as five arrays: offsets 0, +1, −1, +n and −n. `Get` is a function. `Set`
  is a method that writes the array selected by the same guard chain as the
  source. The source throws on a non-zero write outside the band; the model
  returns an `Outcome` (`OutOfBandWrite`) instead.
- **Assembly** (`utils/MatrixBuilder.java`) is the module `MatrixBuilder`.
  `BuildDenseA` and `BuildCdsA` are the two nested/flat assembly loops.
  `BuildVectorB` is the right-hand-side loop. All three are proved against
  one reference definition each: `Stencil` (the operator entry between two
  grid points) and `RhsEntry` (f at the point plus one boundary term for
  each side the point touches).
- **Solvers** (`solvers/*.java`) are the modules `JacobiSolver`,
  `GaussSeidelSolver` and `ParallelGaussSeidelSolver`, with the shared
  pieces in `Sweeps`. Each solve method works on arrays as the source does.
  It is proved equal to a pure specification over the matrix as a sequence
  of rows `M`: one sweep (`JacobiSweep`, `GsSweep`, `RbSweep`), the iterate
  after k sweeps, and a stopping predicate (`JacobiStopped`, `GsStopped`,
  `RbStopped`). The stopping predicate states the source's exit rule: at
  most `maxIter` sweeps, every earlier sweep failed the test, and the last
  one passed it unless the budget ran out. The matrix rows `M` are a ghost
  parameter tied to the storage by `A.HoldsRows(M)` or `DenseHolds(A, M)`.
- **Grid numbering** (`Grid`): the index arithmetic every file relies on.

What is proved about the specifications:

- Assembly produces exactly the 5-point operator in both storages. The two
  builders agree entry by entry. The operator is symmetric, lies on the
  five diagonals and has the diagonal 2(1/l² + 1/h²).
- For every solver and every coupling, a vector is a fixed point of a sweep
  exactly when it satisfies every row as the solver reads it.
- Read with the full row (the dense solvers) or with the probes at the grid
  width n ≥ 2 on the assembled operator, that condition is exactly
  "x solves A x = b". Width 1 is excluded because there the ±1 and ±n
  probes reach the same neighbour, so each vertical link is counted twice
  (`GaussSeidelSolver.UnitWidthCountsLinksTwice`). The Gauss-Seidel finding
  below suffers the same double count.
- CDS probes at width n give the same iterates as the dense solver.
- The red-black phases are simultaneous on the operator: each red (black)
  update reads only black (red) values. The visiting order within a colour
  therefore does not matter.
- The residual norm vanishes exactly when x satisfies the rows. When the
  test passes, every single residual is below tol.

The source's comments and its code disagree in a few places; the model
follows the code:

- The −n branch of `get`/`set` is guarded by `row > 0`, not `row >= n`.
  For 0 < row < n a pair (row, row − n) reaches an array access with a
  negative slot instead of the out-of-band error
  (`Storage.LowerFarGuardAdmitsNegativeSlot`). The model's `Get` and `Set`
  require the slot to be in range (`SlotInBounds`); every caller in the core
  meets this.
- The red-black solver's residual is not b − A·x over whole rows. It is the
  diagonal term plus the four probes at the width floor(sqrt(size)). That
  equals b − A·x on a square grid (`ResidualZeroOnSquareGrid`).
- The Gauss-Seidel CDS solver probes its vertical neighbours at
  `size / B.length`, which is 1, not n (see Findings).

## Model

| member | source | states |
|---|---|---|
| Storage.Cds.constructor | src/storage/CDS.java:22-30 | a valid store of order `size` and width `n` with five fresh diagonals of lengths size, size−1, size−1, size−n, size−n; every readable position reads 0 |
| Storage.Cds.GetSize | src/storage/CDS.java:32-34 | the order N, the length of the main diagonal, at least the width n ≥ 1 |
| Storage.Cds.Get | src/storage/CDS.java:54-68 | a position whose offset is not 0, ±1 or ±n reads 0.0 |
| Storage.Cds.Set | src/storage/CDS.java:36-52 | a covered position then reads the value; an uncovered one is refused exactly when the value is non-zero; every other position keeps its value |
| Storage.StoredIffOnFiveDiagonals | src/storage/CDS.java:37-47 | inside the matrix a position is stored exactly when its offset is 0, ±1 or ±n |
| Storage.StoredPositionsAreInMatrix | src/storage/CDS.java:38-47 | every in-range stored slot belongs to a position inside the matrix |
| Storage.InMatrixSlotInBounds | src/storage/CDS.java:36-68 | every position of the N × N matrix can be read and written without an index failure |
| Storage.LowerFarGuardAdmitsNegativeSlot | src/storage/CDS.java:46-47 | for 0 < row < n the `row > 0` guard selects the −n diagonal with a negative slot |
| Storage.UnitWidthNeverSelectsFarDiagonals | src/storage/CDS.java:38-47 | with n = 1 the ±n branches are never reached, because the ±1 guards come first in the chain |
| Storage.RowsOnFiveDiagonals | src/storage/CDS.java:54-68 | whatever was written, `get` reads non-zero values only on the five diagonals |
| Grid.Coordinates | src/utils/MatrixBuilder.java:27-29 | j·n + i is an unknown of the n × m system; `/ n` and `% n` recover (j, i); the index tests idx ≥ n and idx + n < size are the grid tests j > 0 and j < m − 1 |
| Grid.DivModUnique | src/solvers/ParallelGaussSeidelSolver.java:32-33 | idx / n and idx % n are the coordinates j and i of idx = j·n + i |
| Grid.Position | src/solvers/ParallelGaussSeidelSolver.java:32-33 | every unknown p < n·m is the grid point (p % n, p / n) |
| Grid.NumberingIsInjective | src/utils/MatrixBuilder.java:29 | distinct grid points get distinct unknowns |
| MatrixBuilder.StencilRow | src/utils/MatrixBuilder.java:32-49 | row p of the operator: diagonal 2(valX + valY), ±1 links −valX unless they cross a grid-row end (for n = 1 they are the vertical −valY), ±n links −valY, 0 elsewhere |
| MatrixBuilder.StencilNext | src/utils/MatrixBuilder.java:76-79 | the +1 link is −valX exactly when p + 1 does not start a new grid row (for n = 1 it is the vertical −valY) |
| MatrixBuilder.StencilPrevious | src/utils/MatrixBuilder.java:80-82 | the −1 link is −valX exactly when p does not start a grid row (for n = 1 it is the vertical −valY) |
| MatrixBuilder.StencilVertical | src/utils/MatrixBuilder.java:85-90 | unknowns n apart are linked by −valY |
| MatrixBuilder.StencilOffBand | src/utils/MatrixBuilder.java:72-91 | off the offsets 0, ±1, ±n the operator is 0 |
| MatrixBuilder.BandEntryIsStencil | src/utils/MatrixBuilder.java:72-91 | the index-offset guards of the CDS loop describe the same operator as the grid-position guards |
| MatrixBuilder.GridRowEntry | src/utils/MatrixBuilder.java:31-49 | row j·n + i of the operator has the entries the dense loop writes for grid point (i, j) |
| MatrixBuilder.BuildDenseA | src/utils/MatrixBuilder.java:19-53 | the result is a new (n·m) × (n·m) array holding exactly the operator with valX = 1/l², valY = 1/h² |
| MatrixBuilder.FillGridRow | src/utils/MatrixBuilder.java:28-50 | after grid row j every row below (j + 1)·n holds its band entries and the rest are still 0 |
| MatrixBuilder.FillDensePoint | src/utils/MatrixBuilder.java:29-49 | row idx receives its diagonal and in-grid links; no other row changes |
| MatrixBuilder.DenseBandIsLaplacian | src/utils/MatrixBuilder.java:27-51 | a dense array filled with the band entries holds the operator |
| MatrixBuilder.AssemblyWritesAreStored | src/utils/MatrixBuilder.java:73-90 | every `set` the CDS loop issues lands on a stored slot in range, so none is refused |
| MatrixBuilder.BuildCdsA | src/utils/MatrixBuilder.java:64-93 | a fresh CDS store whose `get` returns exactly the operator with valX = 1/l², valY = 1/h² |
| MatrixBuilder.FillCdsRow | src/utils/MatrixBuilder.java:73-90 | every `set` for unknown i is accepted; row i receives its band entries; other rows keep theirs |
| MatrixBuilder.CdsBandIsLaplacian | src/utils/MatrixBuilder.java:72-91 | a CDS store filled with the band entries holds the operator |
| MatrixBuilder.CdsLaplacianRows | src/utils/MatrixBuilder.java:64-93 | the rows `get` reads from an assembled store are the operator |
| MatrixBuilder.DenseLaplacianRows | src/utils/MatrixBuilder.java:19-53 | the rows of an assembled dense array are the operator |
| MatrixBuilder.BuildsAgree | src/utils/MatrixBuilder.java:19-93 | the CDS and the dense assembly of one grid have the same order and the same entries |
| MatrixBuilder.LaplacianDiagonal | src/utils/MatrixBuilder.java:25-32 | every diagonal entry is 2(valX + valY), hence non-zero when valX + valY ≠ 0 |
| MatrixBuilder.LaplacianLinks | src/utils/MatrixBuilder.java:34-49 | the ±1 and ±n entries of any row, including at grid-row ends and for n = 1 |
| MatrixBuilder.CdsRowBoundary | src/utils/MatrixBuilder.java:76-82 | through `get`, no horizontal link joins the end of one grid row to the start of the next |
| MatrixBuilder.LaplacianSymmetric | src/utils/MatrixBuilder.java:34-49 | the operator is symmetric |
| MatrixBuilder.LaplacianOnFiveDiagonals | src/utils/MatrixBuilder.java:64-93 | the operator lies on the five diagonals of width n |
| MatrixBuilder.RhsInteriorPoint | src/utils/MatrixBuilder.java:120-124 | a point away from every side gets f((i+1)·l, (j+1)·h) alone |
| MatrixBuilder.RhsCorner | src/utils/MatrixBuilder.java:128-138 | the corner (0, 0) of a grid at least 2 × 2 gets f plus g(0, h)/l² and g(l, 0)/h² |
| MatrixBuilder.RhsUnitWidth | src/utils/MatrixBuilder.java:128-134 | on a grid one point wide both the left and the right boundary terms are added |
| MatrixBuilder.RhsZeroData | src/utils/MatrixBuilder.java:107-148 | with f and g identically 0 every entry is 0 |
| MatrixBuilder.BuildVectorB | src/utils/MatrixBuilder.java:107-148 | B is a new array of n·m entries and B[j·n + i] is `RhsEntry` of grid point (i, j) |
| MatrixBuilder.FillRhsRow | src/utils/MatrixBuilder.java:116-145 | after grid row j every entry below (j + 1)·n holds its `RhsEntry` |
| MatrixBuilder.RhsPoint | src/utils/MatrixBuilder.java:117-144 | the value accumulated with the four side tests is `RhsEntry` of (i, j) |
| Sweeps.CalculateSum | src/solvers/ParallelGaussSeidelSolver.java:72-83 | the four guarded probes through `get` add up to the neighbour product of the rows at width `gridWidth` |
| Sweeps.ProbeTerm | src/solvers/ParallelGaussSeidelSolver.java:75-81 | one guarded probe through `get` is the probe of the rows |
| Sweeps.NeighbourSumLocal | src/solvers/ParallelGaussSeidelSolver.java:72-83 | the neighbour product reads x only at probed indices with a non-zero coefficient |
| Sweeps.RelaxRow | src/solvers/ParallelGaussSeidelSolver.java:36-38 | x[i] becomes (B[i] − probes)/diagonal of the current x; nothing else changes |
| Sweeps.NeighbourSumIsOffDiagonalSum | src/solvers/JacobiSolver.java:73-80 | on a five-diagonal matrix with width n ≥ 2 the four probes equal the whole off-diagonal product of the dense loop |
| Sweeps.CouplingsAgree | src/solvers/JacobiSolver.java:25-30 | the same, stated for the two couplings the solvers use |
| Sweeps.RowUpdateFixed | src/solvers/JacobiSolver.java:31 | the update leaves x[i] in place exactly when row i already holds |
| Sweeps.RowUpdateSolvesRow | src/solvers/GaussSeidelSolver.java:26-33 | when row i's off-diagonal part does not read x[i], row i holds after the update, whatever x[i] was |
| Sweeps.FullRowSatisfiesIffSolves | src/solvers/JacobiSolver.java:24-31 | read with the whole row, every row holds exactly when x solves A x = b |
| Sweeps.NeighboursSatisfyIffSolves | src/solvers/JacobiSolver.java:77-82 | read with the probes at the width n ≥ 2 of a five-diagonal matrix, the same |
| Sweeps.MaxDiffIsMaximum | src/solvers/JacobiSolver.java:35-41 | the running maximum is ≥ 0, at least every \|x[i] − x_old[i]\|, and 0 or one of them |
| Sweeps.MaxDiffBelow | src/solvers/JacobiSolver.java:43 | `maxDiff < tol` holds exactly when tol > 0 and every difference is below tol |
| Sweeps.MaxChange | src/solvers/JacobiSolver.java:86-92 | the loop returns the maximum difference over the first k entries |
| Sweeps.Clone | src/solvers/JacobiSolver.java:69 | `x0.clone()` is a fresh array with the same entries |
| Sweeps.FloorSqrt | src/solvers/JacobiSolver.java:67 | `(int) Math.sqrt(s)` is the r with r² ≤ s < (r + 1)² |
| Sweeps.FloorSqrtOfSquare | src/solvers/JacobiSolver.java:67 | on a square n × n grid it is the grid width n |
| JacobiSolver.JacobiSweepEntries | src/solvers/JacobiSolver.java:24-32 | entry i of a sweep is the update of row i computed from the previous iterate only |
| JacobiSolver.JacobiFixedPoint | src/solvers/JacobiSolver.java:23-49 | a sweep leaves x unchanged exactly when every row holds as the solver reads it |
| JacobiSolver.DenseJacobiFixedPointSolves | src/solvers/JacobiSolver.java:18-53 | the dense sweep's fixed points are exactly the solutions of A x = b |
| JacobiSolver.JacobiCouplingsAgree | src/solvers/JacobiSolver.java:77-80 | with the probes at width n ≥ 2 the CDS iterates equal the dense iterates |
| JacobiSolver.JacobiSolversAgreeOnSquareGrid | src/solvers/JacobiSolver.java:67 | on a square grid the floor(sqrt(size)) probes give the dense iterates |
| JacobiSolver.SolveCds | src/solvers/JacobiSolver.java:65-105 | the result has `size` entries and is the iterate after `sweeps` sweeps at width floor(sqrt(size)), or zeros without a sweep; `sweeps` obeys the exit rule |
| JacobiSolver.Iterate | src/solvers/JacobiSolver.java:72-101 | the loop ends after the sweeps the exit rule allows, with x the last iterate |
| JacobiSolver.Step | src/solvers/JacobiSolver.java:73-92 | x receives sweep k + 1 and maxDiff is its largest change |
| JacobiSolver.Sweep | src/solvers/JacobiSolver.java:73-83 | x receives one sweep computed from x_old through the four probes |
| JacobiSolver.CopyPrefix | src/solvers/JacobiSolver.java:100 | `System.arraycopy` puts x into the front of x_old and keeps the rest |
| JacobiSolver.SolveDense | src/solvers/JacobiSolver.java:18-53 | the dense counterpart of `SolveCds`, with the whole-row product |
| JacobiSolver.IterateDense | src/solvers/JacobiSolver.java:23-49 | the dense loop ends after the sweeps the exit rule allows |
| JacobiSolver.DenseSweep | src/solvers/JacobiSolver.java:24-32 | x receives one sweep computed from x_old with every column j ≠ i |
| GaussSeidelSolver.GsSweepUpToSplit | src/solvers/GaussSeidelSolver.java:25-39 | after row i−1 the vector is the finished sweep below i and the old values from i on |
| GaussSeidelSolver.GsSweepEntries | src/solvers/GaussSeidelSolver.java:26-33 | entry i of a sweep is computed from the new values below i and the old ones from i on |
| GaussSeidelSolver.GsFixedPoint | src/solvers/GaussSeidelSolver.java:22-45 | a sweep leaves x unchanged exactly when every row holds as the solver reads it |
| GaussSeidelSolver.DenseGsFixedPointSolves | src/solvers/GaussSeidelSolver.java:18-48 | the dense sweep's fixed points are exactly the solutions of A x = b |
| GaussSeidelSolver.GsCouplingsAgree | src/solvers/GaussSeidelSolver.java:68-78 | with the probes at width n ≥ 2 the CDS iterates equal the dense iterates |
| GaussSeidelSolver.SolveCds | src/solvers/GaussSeidelSolver.java:60-96 | a fresh copy of x0 updated in place; its first `size` entries are the iterate after `sweeps` sweeps at width size / B.length, the rest is x0; `sweeps` obeys the exit rule |
| GaussSeidelSolver.IterateCds | src/solvers/GaussSeidelSolver.java:64-93 | the loop at probe width w ends after the sweeps the exit rule allows, with x the last iterate |
| GaussSeidelSolver.SweepCds | src/solvers/GaussSeidelSolver.java:67-87 | x receives one in-place sweep; maxDiff is its largest change |
| GaussSeidelSolver.AsWrittenWidthIsOne | src/solvers/GaussSeidelSolver.java:76-78 | with one entry of B per unknown, size / B.length is 1 |
| GaussSeidelSolver.AsWrittenWidthMovesExactSolution | src/solvers/GaussSeidelSolver.java:76-78 | on the 2 × 2 grid an exact solution is moved by a sweep at that width |
| GaussSeidelSolver.GridWidthSweepSolves | src/solvers/GaussSeidelSolver.java:76-78 | at width n ≥ 2 the sweep's fixed points are exactly the solutions and the iterates equal the dense ones |
| GaussSeidelSolver.Grid1x2 | src/utils/MatrixBuilder.java:64-93 | the 2 × 2 matrix given is the assembled operator of the grid one point wide and two points high, with l = h = 1 |
| GaussSeidelSolver.UnitWidthCountsLinksTwice | src/solvers/ParallelGaussSeidelSolver.java:74-81 | at width 1 the ±1 and ±n probes reach the same neighbour: on that grid they sum to −2·x[1] where the whole row gives −1·x[1] |
| GaussSeidelSolver.SolveDense | src/solvers/GaussSeidelSolver.java:18-48 | the dense counterpart of `SolveCds`, with the whole-row product |
| GaussSeidelSolver.IterateDense | src/solvers/GaussSeidelSolver.java:22-45 | the dense loop ends after the sweeps the exit rule allows |
| GaussSeidelSolver.SweepDense | src/solvers/GaussSeidelSolver.java:25-39 | x receives one in-place sweep with every column j ≠ i; maxDiff is its largest change |
| ParallelGaussSeidelSolver.PhaseWritesOnlyItsColour | src/solvers/ParallelGaussSeidelSolver.java:31-55 | the red phase writes only red unknowns and the black phase only black ones |
| ParallelGaussSeidelSolver.LaplacianIsRedBlack | src/solvers/ParallelGaussSeidelSolver.java:8-10 | every link of the grid operator joins a red and a black unknown |
| ParallelGaussSeidelSolver.LinkedPointsDifferInColour | src/solvers/ParallelGaussSeidelSolver.java:32-35 | two unknowns the stencil links have (i + j) of different parity |
| ParallelGaussSeidelSolver.PhaseIsSimultaneous | src/solvers/ParallelGaussSeidelSolver.java:8-10 | on such a matrix a phase gives each unknown of its colour the update computed from the phase's input, so the visiting order does not matter |
| ParallelGaussSeidelSolver.RbFixedPoint | src/solvers/ParallelGaussSeidelSolver.java:25-56 | a red-black sweep leaves x unchanged exactly when every row holds as the probes read it |
| ParallelGaussSeidelSolver.RbFixedPointSolves | src/solvers/ParallelGaussSeidelSolver.java:20-70 | on the assembled operator with width n ≥ 2 the sweep's fixed points are exactly the solutions |
| ParallelGaussSeidelSolver.ResidualNormSqBounds | src/solvers/ParallelGaussSeidelSolver.java:86-95 | the sum of squares is ≥ 0, bounds each squared residual, and is 0 exactly when every residual is 0 |
| ParallelGaussSeidelSolver.ResidualZeroIffSatisfies | src/solvers/ParallelGaussSeidelSolver.java:86-95 | the residual norm vanishes exactly when every row holds as the probes read it |
| ParallelGaussSeidelSolver.ResidualZeroOnSquareGrid | src/solvers/ParallelGaussSeidelSolver.java:90 | on a square grid the residual norm vanishes exactly at a solution |
| ParallelGaussSeidelSolver.RootBelowTolerance | src/solvers/ParallelGaussSeidelSolver.java:62 | for the root r ≥ 0 of the norm, r < tol exactly when tol > 0 and norm < tol² |
| ParallelGaussSeidelSolver.ResidualBelowBoundsEachRow | src/solvers/ParallelGaussSeidelSolver.java:61-62 | when the test passes every single residual is below tol in absolute value |
| ParallelGaussSeidelSolver.Solve | src/solvers/ParallelGaussSeidelSolver.java:20-70 | a fresh copy of x0 updated in place; its first `size` entries are the iterate after `sweeps` red-black sweeps, the rest is x0; `sweeps` obeys the residual exit rule |
| ParallelGaussSeidelSolver.Iterate | src/solvers/ParallelGaussSeidelSolver.java:25-66 | the loop ends after the sweeps the exit rule allows, with x the last iterate |
| ParallelGaussSeidelSolver.Iteration | src/solvers/ParallelGaussSeidelSolver.java:29-61 | x receives sweep k + 1 and the returned value is its squared residual norm |
| ParallelGaussSeidelSolver.SweepCds | src/solvers/ParallelGaussSeidelSolver.java:29-56 | x receives the red phase, then the black phase |
| ParallelGaussSeidelSolver.PhaseCds | src/solvers/ParallelGaussSeidelSolver.java:31-42 | x receives the phase of one colour in index order; the other colour is skipped |
| ParallelGaussSeidelSolver.CalculateResidualNorm | src/solvers/ParallelGaussSeidelSolver.java:86-95 | the sum of the squared residuals, each read with the probes at width floor(sqrt(size)) |
| ParallelGaussSeidelSolver.ResidualAt | src/solvers/ParallelGaussSeidelSolver.java:90-91 | residual_i is B[i] minus the diagonal term and the four probes |

## Left out

- Printing: `CDS.print` and the console messages of the solvers are not modelled.
- Floating point: `double` is modelled as `real`, with no rounding, NaN or
  infinity, so results are exact. The solvers require a non-zero diagonal
  (`NonZeroDiagonal`); the source would divide by 0.0.
- The builders require l ≠ 0 and h ≠ 0, where the source would compute an
  infinite 1/l². The CDS constructor requires 1 ≤ n ≤ size. Size and width
  outside that range make the source's array sizes negative, or (n ≤ 0)
  make the ±n diagonals meaningless.
- f and g are total functions on reals; `BiFunction` boxing is not modelled.
- `Storage.Cds.Get` and `Storage.Cds.Set`: require the selected slot to be in
  range, where the source fails with an index exception. Inside the N × N
  matrix that cannot happen (`InMatrixSlotInBounds`). Outside it, and
  through the −n guard for 0 < row < n, the source throws.
- 32-bit overflow: Java's `int` products and sums (`n * m`, `j * n + i`,
  `idx + n`) can wrap around on very large grids. The model's integers are
  unbounded, so it does not capture that wrap-around.
- The solvers require B and x0 to have at least `size` entries, even when
  `maxIter` ≤ 0 and the source would not touch them. The dense solvers take
  the square n × n matrix `A.length`; ragged rows are not modelled.
- The red-black solver requires n ≥ 1. The source fails on n = 0 at
  `size / n`. It runs with a negative n, where Java's truncating `/` and
  `%` give colours and probe offsets that the model does not capture. The unused height `m = size / n` and the unused `old_xi` and
  `maxDiff` locals are not modelled.
- `ParallelGaussSeidelSolver.CalculateResidualNorm`: returns the squared
  norm. `Math.sqrt` has no counterpart on reals, so the caller compares the
  square with tol² (`RootBelowTolerance` shows the two tests agree).
- `(int) Math.sqrt(size)` is modelled as the exact integer square root
  `FloorSqrt`. That is what the source computes: every `int` is exact as a
  `double`, and `Math.sqrt` is correctly rounded.
- The matrix rows `M` are a ghost parameter of every solver; the solver
  reads the matrix only through `get` or the dense array.
- The spectral convergence claims (that the iteration converges, or how
  fast) are not modelled. Only the fixed points and the exit rule are.
- Concurrency: the red-black solver runs its phases sequentially, as the
  source does. `PhaseIsSimultaneous` states the independence that would
  allow concurrent phases.

## Findings

| source | as written | input that shows it | evidently intended | confidence | as-written member | corrected member |
|---|---|---|---|---|---|---|
| src/solvers/GaussSeidelSolver.java:76-78 | the CDS Gauss-Seidel solver probes the vertical neighbours at `size / B.length`, which is 1 whenever B has one entry per unknown, so the ±n couplings are never read | 2 × 2 grid, l = h = 1, exact solution x = (1, 2, 3, 4) of b = (−1, 3, 7, 11): one sweep sets x[0] to 3/4 | probe at the grid width n, as the comment on line 76 says (`size/B.length = n`) | not executed | GaussSeidelSolver.AsWrittenWidthMovesExactSolution | GaussSeidelSolver.GridWidthSweepSolves |
