/** A dense generic matrix: a finite association from coordinates to elements together with a
    size descriptor `(rows - 1, columns - 1)`. Arithmetic is supplied per call by a `Ring`.
    Validation failures, which the Java code throws as exceptions, are returned as `Failure`s. */
module MatrixMap {
  import opened Results
  import opened Indexes
  import opened Rings

  /** The matrix dimension a failed length check was about. */
  datatype Cause = ROW | COLUMN

  /** The closed set of validation failures of the matrix operations. */
  datatype MatrixError =
    | InvalidLength(cause: Cause, length: int)
    | InconsistentSize(thisSize: Index, otherSize: Index)
    | NonSquare(size: Index)

  /** A matrix: its size descriptor and the elements stored at its coordinates. */
  datatype Matrix<S> = Matrix(size: Index, entries: map<Index, S>)

  /** Every coordinate of the rectangle, and nothing else, holds an element.
      Every construction protocol below establishes this. */
  ghost predicate IsDense<S>(m: Matrix<S>) {
    forall idx :: idx in m.entries <==> InRange(m.size, idx)
  }

  /** Every coordinate of the rectangle holds an element, so the arithmetic never reads an
      absent value. */
  ghost predicate Populated<S>(m: Matrix<S>) {
    forall idx :: InRange(m.size, idx) ==> idx in m.entries
  }

  /** A total generator reading `m`; `otherwise` is answered off the map's keys. */
  function Getter<S>(m: map<Index, S>, otherwise: S): Index -> S {
    idx => if idx in m then m[idx] else otherwise
  }

  // ---------------------------------------------------------------------------------------
  // Validators (the static checks of the nested exception classes)
  // ---------------------------------------------------------------------------------------

  /** Accepts a strictly positive length and hands it back; any other length is an
      invalid-length failure that names the dimension and the offending length. */
  function RequireNonEmpty(cause: Cause, length: int): (r: Result<int, MatrixError>)
    ensures r.Success? <==> length > 0
    ensures r.Success? ==> r.value == length
    ensures r.Failure? ==> r.error == InvalidLength(cause, length)
  {
    if length <= 0 then Failure(InvalidLength(cause, length)) else Success(length)
  }

  /** Accepts two matrices of the same size and hands back that size; otherwise an
      inconsistent-size failure carrying both sizes, the receiver's first. */
  function RequireMatchingSize<S>(a: Matrix<S>, b: Matrix<S>): (r: Result<Index, MatrixError>)
    ensures r.Success? <==> a.size == b.size
    ensures r.Success? ==> r.value == a.size && r.value == b.size
    ensures r.Failure? ==> r.error == InconsistentSize(a.size, b.size)
  {
    if a.size != b.size then Failure(InconsistentSize(a.size, b.size)) else Success(a.size)
  }

  /** Accepts a square size descriptor and hands it back; otherwise a non-square failure
      carrying the size. */
  function RequireDiagonal(size: Index): (r: Result<Index, MatrixError>)
    ensures r.Success? <==> size.row == size.column
    ensures r.Success? ==> r.value == size
    ensures r.Failure? ==> r.error == NonSquare(size)
  {
    if !size.AreDiagonal() then Failure(NonSquare(size)) else Success(size)
  }

  // ---------------------------------------------------------------------------------------
  // Construction protocols
  // ---------------------------------------------------------------------------------------

  /** The association the generator `f` produces for a `rows` by `columns` matrix: exactly the
      coordinates of the rectangle, each mapped to `f` of itself. Non-positive dimensions give
      the empty association. */
  function CreateMatrix<S>(rows: int, columns: int, f: Index -> S): (m: map<Index, S>)
    ensures forall idx :: idx in m <==> 0 <= idx.row < rows && 0 <= idx.column < columns
    ensures forall idx :: idx in m ==> m[idx] == f(idx)
  {
    var size := Index(rows - 1, columns - 1);
    assert forall idx :: idx in Cells(size) <==> 0 <= idx.row < rows && 0 <= idx.column < columns;
    map idx | idx in Cells(size) :: f(idx)
  }

  /** A `rows` by `columns` matrix whose element at each coordinate is `f` of that coordinate.
      The row count is checked before the column count. */
  function Instance<S>(rows: int, columns: int, f: Index -> S): (r: Result<Matrix<S>, MatrixError>)
    ensures rows <= 0 ==> r == Failure(InvalidLength(ROW, rows))
    ensures rows > 0 && columns <= 0 ==> r == Failure(InvalidLength(COLUMN, columns))
    ensures rows > 0 && columns > 0 ==>
      && r.Success?
      && r.value.size == Index(rows - 1, columns - 1)
      && IsDense(r.value)
      && (forall idx :: InRange(r.value.size, idx) ==> Value(r.value, idx) == Some(f(idx)))
      && (forall idx :: !InRange(r.value.size, idx) ==> Value(r.value, idx) == None)
  {
    var rowCount :- RequireNonEmpty(ROW, rows);
    var columnCount :- RequireNonEmpty(COLUMN, columns);
    Success(Matrix(Index(rowCount - 1, columnCount - 1), CreateMatrix(rowCount, columnCount, f)))
  }

  /** The size-descriptor form of `Instance`: the matrix has exactly the size `size` whenever
      both of its components are non-negative; a negative component is reported as an invalid
      length of `component + 1`, rows first. */
  function InstanceAt<S>(size: Index, f: Index -> S): (r: Result<Matrix<S>, MatrixError>)
    ensures size.row < 0 ==> r == Failure(InvalidLength(ROW, size.row + 1))
    ensures size.row >= 0 && size.column < 0 ==> r == Failure(InvalidLength(COLUMN, size.column + 1))
    ensures size.row >= 0 && size.column >= 0 ==>
      && r.Success?
      && r.value.size == size
      && IsDense(r.value)
      && (forall idx :: InRange(size, idx) ==> r.value.entries[idx] == f(idx))
  {
    Instance(size.row + 1, size.column + 1, f)
  }

  /** An `n` by `n` matrix holding `v` everywhere. Only the row length is checked, so the only
      failure is an invalid row length. */
  function Constant<S>(n: int, v: S): (r: Result<Matrix<S>, MatrixError>)
    ensures r.Failure? <==> n <= 0
    ensures r.Failure? ==> r.error == InvalidLength(ROW, n)
    ensures r.Success? ==>
      && r.value.size == Index(n - 1, n - 1)
      && r.value.size.AreDiagonal()
      && IsDense(r.value)
      && (forall idx :: InRange(r.value.size, idx) ==> r.value.entries[idx] == v)
  {
    var size :- RequireNonEmpty(ROW, n);
    Success(Matrix(Index(size - 1, size - 1), CreateMatrix(size, size, idx => v)))
  }

  /** An `n` by `n` matrix holding `one` on the diagonal and `zero` elsewhere. Only the row
      length is checked, so the only failure is an invalid row length. */
  function Identity<S>(n: int, zero: S, one: S): (r: Result<Matrix<S>, MatrixError>)
    ensures r.Failure? <==> n <= 0
    ensures r.Failure? ==> r.error == InvalidLength(ROW, n)
    ensures r.Success? ==>
      && r.value.size == Index(n - 1, n - 1)
      && IsDense(r.value)
      && (forall i :: 0 <= i < n ==> r.value.entries[Index(i, i)] == one)
      && (forall idx :: InRange(r.value.size, idx) && !idx.AreDiagonal() ==> r.value.entries[idx] == zero)
  {
    var size :- RequireNonEmpty(ROW, n);
    Success(Matrix(Index(size - 1, size - 1), CreateMatrix(size, size, (idx: Index) => if idx.AreDiagonal() then one else zero)))
  }

  /** No row of `a` is shorter than its first row, so every read of the copy loop is in bounds. */
  ghost predicate RowsCoverFirst<S>(a: seq<seq<S>>) {
    forall i :: 0 <= i < |a| ==> |a[0]| <= |a[i]|
  }

  /** The matrix written out by the two-dimensional literal `a`: as many rows as `a` has, as many
      columns as its first row (zero when there is no row), and `a[r][c]` at `(r, c)`. The row
      count is checked first, so an empty `a` is an invalid row length of 0. Elements of a row
      beyond the first row's length are not copied. */
  function From<S>(a: seq<seq<S>>): (r: Result<Matrix<S>, MatrixError>)
    requires RowsCoverFirst(a)
    ensures |a| == 0 ==> r == Failure(InvalidLength(ROW, 0))
    ensures |a| > 0 && |a[0]| == 0 ==> r == Failure(InvalidLength(COLUMN, 0))
    ensures |a| > 0 && |a[0]| > 0 ==>
      && r.Success?
      && r.value.size == Index(|a| - 1, |a[0]| - 1)
      && IsDense(r.value)
      && (forall row, col :: 0 <= row < |a| && 0 <= col < |a[0]| ==> ValueAt(r.value, row, col) == Some(a[row][col]))
  {
    var rows := |a|;
    var columns := if rows > 0 then |a[0]| else 0;
    var rowCount :- RequireNonEmpty(ROW, rows);
    var columnCount :- RequireNonEmpty(COLUMN, columns);
    var size := Index(rows - 1, columns - 1);
    Success(Matrix(size, map idx | idx in Cells(size) && idx.row < rows && idx.column < columns :: a[idx.row][idx.column]))
  }

  // ---------------------------------------------------------------------------------------
  // Lookup
  // ---------------------------------------------------------------------------------------

  /** The element stored at `idx`, or `None` when nothing is stored there. In a dense matrix that
      is exactly the coordinates outside the rectangle. */
  function Value<S>(m: Matrix<S>, idx: Index): (r: Option<S>)
    ensures r.Some? <==> idx in m.entries
    ensures r.Some? ==> r.value == m.entries[idx]
    ensures IsDense(m) ==> (r.Some? <==> InRange(m.size, idx))
  {
    if idx in m.entries then Some(m.entries[idx]) else None
  }

  /** Lookup by row and column, where a negative row or column is read as 0. */
  function ValueAt<S>(m: Matrix<S>, row: int, column: int): (r: Option<S>)
    ensures 0 <= row && 0 <= column ==> r == Value(m, Index(row, column))
    ensures row < 0 ==> r == Value(m, Index(0, if column < 0 then 0 else column))
    ensures column < 0 ==> r == Value(m, Index(if row < 0 then 0 else row, 0))
    ensures IsDense(m) && InRange(m.size, Index(0, 0)) ==>
      (r.Some? <==> row <= m.size.row && column <= m.size.column)
  {
    var r := if row < 0 then 0 else row;
    var c := if column < 0 then 0 else column;
    Value(m, Index(r, c))
  }

  /** Lookup in another matrix: answers exactly what that matrix stores at `idx`. */
  function ValueOf<S>(other: Matrix<S>, idx: Index): (r: Option<S>)
    ensures r.Some? <==> idx in other.entries
    ensures r.Some? ==> r.value == other.entries[idx]
  {
    Value(other, idx)
  }

  // ---------------------------------------------------------------------------------------
  // Arithmetic
  // ---------------------------------------------------------------------------------------

  /** The elementwise ring sums over the rectangle `size`. */
  function SumEntries<S>(a: Matrix<S>, b: Matrix<S>, ring: Ring<S>, size: Index): map<Index, S>
    requires Populated(a) && Populated(b) && a.size == size && b.size == size
  {
    map idx | idx in Cells(size) :: ring.sum(a.entries[idx], b.entries[idx])
  }

  /** Elementwise sum. Operands of different sizes are an inconsistent-size failure; otherwise
      the sums are fed back through `InstanceAt`, which fails only for a negative size. */
  function Plus<S>(a: Matrix<S>, b: Matrix<S>, ring: Ring<S>): (r: Result<Matrix<S>, MatrixError>)
    requires Populated(a) && Populated(b)
    ensures a.size != b.size ==> r == Failure(InconsistentSize(a.size, b.size))
    ensures a.size == b.size && a.size.row < 0 ==> r == Failure(InvalidLength(ROW, a.size.row + 1))
    ensures a.size == b.size && a.size.row >= 0 && a.size.column < 0 ==>
      r == Failure(InvalidLength(COLUMN, a.size.column + 1))
    ensures a.size == b.size && a.size.row >= 0 && a.size.column >= 0 ==>
      && r.Success?
      && r.value.size == a.size
      && IsDense(r.value)
      && (forall idx :: InRange(a.size, idx) ==> r.value.entries[idx] == ring.sum(a.entries[idx], b.entries[idx]))
  {
    var size :- RequireMatchingSize(a, b);
    // Java's `resultMatrix::get` answers null off the rectangle; `InstanceAt` never asks there,
    // so the stand-in `ring.zero` is never read.
    InstanceAt(size, Getter(SumEntries(a, b, ring, size), ring.zero))
  }

  /** Entry `(i, j)` of the product after `n` steps: the left fold of `ring.sum`, starting from
      `ring.zero`, over `ring.product(a(i, k), b(k, j))` for `k` ascending from 0 to `n - 1`. */
  function Dot<S>(ring: Ring<S>, a: Matrix<S>, b: Matrix<S>, i: int, j: int, n: nat): S
    requires Populated(a) && Populated(b)
    requires 0 <= i <= a.size.row && 0 <= j <= b.size.column
    requires n <= a.size.column + 1 && n <= b.size.row + 1
  {
    if n == 0 then ring.zero
    else
      assert InRange(a.size, Index(i, n - 1)) && InRange(b.size, Index(n - 1, j));
      ring.sum(Dot(ring, a, b, i, j, n - 1), ring.product(a.entries[Index(i, n - 1)], b.entries[Index(n - 1, j)]))
  }

  /** The product entries over the square rectangle `size`. */
  function ProductEntries<S>(a: Matrix<S>, b: Matrix<S>, ring: Ring<S>, size: Index): map<Index, S>
    requires Populated(a) && Populated(b) && a.size == size && b.size == size && size.AreDiagonal()
  {
    map idx | idx in Cells(size) :: Dot(ring, a, b, idx.row, idx.column, size.column + 1)
  }

  /** Product of two square matrices of the same size. A size mismatch is reported before a
      non-square size; the result has the operands' size and entry `(i, j)` is the left fold
      `Dot` over the whole shared dimension. */
  function Times<S>(a: Matrix<S>, b: Matrix<S>, ring: Ring<S>): (r: Result<Matrix<S>, MatrixError>)
    requires Populated(a) && Populated(b)
    ensures a.size != b.size ==> r == Failure(InconsistentSize(a.size, b.size))
    ensures a.size == b.size && !a.size.AreDiagonal() ==> r == Failure(NonSquare(a.size))
    ensures a.size == b.size && a.size.AreDiagonal() ==>
      && r.Success?
      && r.value.size == a.size
      && IsDense(r.value)
      && (forall idx :: InRange(a.size, idx) ==>
            r.value.entries[idx] == Dot(ring, a, b, idx.row, idx.column, a.size.column + 1))
  {
    var size :- RequireMatchingSize(a, b);
    var square :- RequireDiagonal(size);
    Success(Matrix(size, ProductEntries(a, b, ring, size)))
  }
}
