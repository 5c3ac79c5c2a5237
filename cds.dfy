// Compressed diagonal storage (CDS) of an N x N matrix that keeps only the
// five diagonals of a 2D 5-point stencil: offsets 0, +1, -1, +n and -n.
module Storage {

  /** The stored diagonal that `get` and `set` select for a (row, col) pair. */
  datatype Band = Main | Upper1 | Lower1 | UpperN | LowerN | Outside

  /** Outcome of `set`: a non-zero value outside the five diagonals is refused. */
  datatype Outcome = Ok | OutOfBandWrite

  /** The guard chain shared by `set` and `get`; the offsets are tried in the
      order 0, +1, -1, +n, -n and the first guard that holds wins. */
  function BandOf(size: int, n: int, row: int, col: int): Band
  {
    var offset := col - row;
    if offset == 0 then Main
    else if offset == 1 && row < size - 1 then Upper1
    else if offset == -1 && row > 0 then Lower1
    else if offset == n && row < size - n then UpperN
    else if offset == -n && row > 0 then LowerN
    else Outside
  }

  /** The slot of the selected diagonal: upper diagonals are indexed by the
      row, the lower ones by row - 1 and row - n. */
  function SlotOf(n: int, band: Band, row: int): int
  {
    match band
    case Main => row
    case Upper1 => row
    case Lower1 => row - 1
    case UpperN => row
    case LowerN => row - n
    case Outside => 0
  }

  /** The length the constructor gives each diagonal. */
  function BandLength(size: int, n: int, band: Band): int
  {
    match band
    case Main => size
    case Upper1 => size - 1
    case Lower1 => size - 1
    case UpperN => size - n
    case LowerN => size - n
    case Outside => 0
  }

  /** The array access performed by the selected branch stays inside its
      diagonal (otherwise the access itself would fail). */
  predicate SlotInBounds(size: int, n: int, row: int, col: int)
  {
    var band := BandOf(size, n, row, col);
    band == Outside || 0 <= SlotOf(n, band, row) < BandLength(size, n, band)
  }

  /** An N x N matrix held as its rows. */
  predicate Square(M: seq<seq<real>>)
  {
    forall r :: 0 <= r < |M| ==> |M[r]| == |M|
  }

  /** Every non-zero entry lies on one of the five stored diagonals. */
  predicate OnFiveDiagonals(M: seq<seq<real>>, n: int)
    requires Square(M)
  {
    forall r, c :: 0 <= r < |M| && 0 <= c < |M| && M[r][c] != 0.0 ==> c - r in {0, 1, -1, n, -n}
  }

  class Cds {
    const size: int
    /** Distance of the far diagonals (the grid width). */
    const n: int
    const mainDiag: array<real>
    const upperDiag1: array<real>
    const lowerDiag1: array<real>
    const upperDiagN: array<real>
    const lowerDiagN: array<real>

    function Repr(): set<object>
    {
      {mainDiag, upperDiag1, lowerDiag1, upperDiagN, lowerDiagN}
    }

    ghost predicate Valid()
    {
      && 1 <= n <= size
      && mainDiag.Length == size
      && upperDiag1.Length == size - 1
      && lowerDiag1.Length == size - 1
      && upperDiagN.Length == size - n
      && lowerDiagN.Length == size - n
      && mainDiag != upperDiag1 && mainDiag != lowerDiag1 && mainDiag != upperDiagN && mainDiag != lowerDiagN
      && upperDiag1 != lowerDiag1 && upperDiag1 != upperDiagN && upperDiag1 != lowerDiagN
      && lowerDiag1 != upperDiagN && lowerDiag1 != lowerDiagN
      && upperDiagN != lowerDiagN
    }

    /** The array that holds a band. */
    function Diagonal(band: Band): (d: array<real>)
      requires Valid() && band != Outside
      ensures d in Repr() && d.Length == BandLength(size, n, band)
    {
      match band
      case Main => mainDiag
      case Upper1 => upperDiag1
      case Lower1 => lowerDiag1
      case UpperN => upperDiagN
      case LowerN => lowerDiagN
    }

    constructor (size: int, n: int)
      requires 1 <= n <= size
      ensures Valid() && this.size == size && this.n == n
      ensures fresh(mainDiag) && fresh(upperDiag1) && fresh(lowerDiag1) && fresh(upperDiagN) && fresh(lowerDiagN)
      ensures forall r, c :: SlotInBounds(size, n, r, c) ==> Get(r, c) == 0.0
    {
      this.size := size;
      this.n := n;
      mainDiag := new real[size](_ => 0.0);
      upperDiag1 := new real[size - 1](_ => 0.0);
      lowerDiag1 := new real[size - 1](_ => 0.0);
      upperDiagN := new real[size - n](_ => 0.0);
      lowerDiagN := new real[size - n](_ => 0.0);
    }

    function GetSize(): (s: int)
      requires Valid()
      ensures s == mainDiag.Length && s >= n >= 1
    {
      size
    }

    /** The entry at (row, col); everything outside the five diagonals reads 0. */
    function Get(row: int, col: int): (v: real)
      reads Repr()
      requires Valid() && SlotInBounds(size, n, row, col)
      ensures col - row !in {0, 1, -1, n, -n} ==> v == 0.0
    {
      var band := BandOf(size, n, row, col);
      if band == Outside then 0.0 else Diagonal(band)[SlotOf(n, band, row)]
    }

    /** M is the matrix as `get` reads it, row by row. */
    ghost predicate HoldsRows(M: seq<seq<real>>)
      reads Repr()
      requires Valid()
    {
      |M| == size && Square(M) && forall r, c :: 0 <= r < size && 0 <= c < size ==> M[r][c] == Get(r, c)
    }

    /** The whole matrix as `get` reads it. */
    ghost function Rows(): (M: seq<seq<real>>)
      reads Repr()
      requires Valid()
      ensures HoldsRows(M)
    {
      seq(size, r requires 0 <= r < size && Valid() reads Repr() =>
        seq(size, c requires 0 <= c < size && Valid() reads Repr() => Get(r, c)))
    }

    /** Stores `value` at (row, col) if a diagonal covers it; a non-zero value
        elsewhere is refused and a zero there is ignored. */
    method Set(row: int, col: int, value: real) returns (outcome: Outcome)
      requires Valid() && SlotInBounds(size, n, row, col)
      modifies Repr()
      ensures outcome == if BandOf(size, n, row, col) != Outside || value == 0.0 then Ok else OutOfBandWrite
      ensures BandOf(size, n, row, col) != Outside ==> Get(row, col) == value
      ensures forall r, c :: 0 <= r < size && 0 <= c < size && (r != row || c != col) ==> Get(r, c) == old(Get(r, c))
    {
      var band := BandOf(size, n, row, col);
      if band != Outside {
        Diagonal(band)[SlotOf(n, band, row)] := value;
        outcome := Ok;
      } else if value != 0.0 {
        outcome := OutOfBandWrite;
      } else {
        outcome := Ok;
      }
    }
  }

  /** Every position of the N x N matrix can be read and written. */
  lemma InMatrixSlotInBounds(size: int, n: int, row: int, col: int)
    requires 1 <= n <= size && 0 <= row < size && 0 <= col < size
    ensures SlotInBounds(size, n, row, col)
  {
  }

  /** Every stored slot belongs to a position inside the matrix: outside the
      matrix a readable position always reads 0. */
  lemma StoredPositionsAreInMatrix(size: int, n: int, row: int, col: int)
    requires 1 <= n <= size && SlotInBounds(size, n, row, col) && BandOf(size, n, row, col) != Outside
    ensures 0 <= row < size && 0 <= col < size
  {
  }

  /** Inside the matrix a position is stored exactly when its offset is one of
      the five diagonal offsets. */
  lemma StoredIffOnFiveDiagonals(size: int, n: int, row: int, col: int)
    requires 1 <= n <= size && 0 <= row < size && 0 <= col < size
    ensures BandOf(size, n, row, col) != Outside <==> col - row in {0, 1, -1, n, -n}
  {
  }

  /** The -n branch is guarded by `row > 0` instead of `row >= n`: for
      0 < row < n the pair (row, row - n) selects it with a negative slot. */
  lemma LowerFarGuardAdmitsNegativeSlot(size: int, n: int, row: int)
    requires 1 <= n <= size && 0 < row < n
    ensures BandOf(size, n, row, row - n) == LowerN
    ensures SlotOf(n, LowerN, row) < 0 && !SlotInBounds(size, n, row, row - n)
  {
  }

  /** With n == 1 the +-n offsets coincide with +-1 and the +-1 branches come
      first, so the far diagonals are never selected. */
  lemma UnitWidthNeverSelectsFarDiagonals(size: int, row: int, col: int)
    ensures BandOf(size, 1, row, col) != UpperN && BandOf(size, 1, row, col) != LowerN
  {
  }

  /** Whatever was written, a CDS matrix only holds entries on its five
      diagonals. */
  lemma RowsOnFiveDiagonals(A: Cds)
    requires A.Valid()
    ensures OnFiveDiagonals(A.Rows(), A.n)
  {
  }
}
