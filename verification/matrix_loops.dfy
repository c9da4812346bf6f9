/** The row-major loops of the Java implementation, proved to compute what the declarative
    definitions in `MatrixMap` describe. */
module MatrixLoops {
  import opened Results
  import opened Indexes
  import opened Rings
  import opened MatrixMap

  /** Row-major fill of a `rows` by `columns` association: the outer loop walks the rows, the
      inner loop the columns, and each coordinate is stored with `f` of itself. */
  method BuildMatrix<S>(rows: int, columns: int, f: Index -> S) returns (m: map<Index, S>)
    ensures forall idx :: idx in m <==> 0 <= idx.row < rows && 0 <= idx.column < columns
    ensures forall idx :: idx in m ==> m[idx] == f(idx)
    ensures m == CreateMatrix(rows, columns, f)
  {
    m := map[];
    var size := Index(rows - 1, columns - 1);
    var row := 0;
    while row <= size.row
      invariant 0 <= row && (row == 0 || row <= rows)
      invariant forall idx :: idx in m <==> InRange(size, idx) && idx.row < row
      invariant forall idx :: idx in m ==> m[idx] == f(idx)
    {
      var col := 0;
      while col <= size.column
        invariant 0 <= col && (col == 0 || col <= columns)
        invariant forall idx :: idx in m <==>
          InRange(size, idx) && (idx.row < row || (idx.row == row && idx.column < col))
        invariant forall idx :: idx in m ==> m[idx] == f(idx)
      {
        var index := Index(row, col);
        m := m[index := f(index)];
        col := col + 1;
      }
      row := row + 1;
    }
  }

  /** One entry of the product as the Java code accumulates it: starting from `ring.zero`,
      `sum := ring.sum(sum, ring.product(a(i, k), b(k, j)))` for `k` ascending from 0 to `n - 1`.
      The result is the left fold `Dot`. */
  method ComputeEntry<S>(a: Matrix<S>, b: Matrix<S>, ring: Ring<S>, i: int, j: int, n: nat) returns (sum: S)
    requires Populated(a) && Populated(b)
    requires 0 <= i <= a.size.row && 0 <= j <= b.size.column
    requires n <= a.size.column + 1 && n <= b.size.row + 1
    ensures sum == Dot(ring, a, b, i, j, n)
  {
    sum := ring.zero;
    var k := 0;
    while k < n
      invariant 0 <= k <= n
      invariant sum == Dot(ring, a, b, i, j, k)
    {
      assert InRange(a.size, Index(i, k)) && InRange(b.size, Index(k, j));
      var product := ring.product(a.entries[Index(i, k)], b.entries[Index(k, j)]);
      sum := ring.sum(sum, product);
      k := k + 1;
    }
  }

  /** Row `i` of the product, added to the rows `result` already holds: the middle loop of the
      Java code, walking the columns `j` of the row and storing the accumulated entry. */
  method ComputeRow<S>(a: Matrix<S>, b: Matrix<S>, ring: Ring<S>, i: int, result: map<Index, S>)
    returns (extended: map<Index, S>)
    requires Populated(a) && Populated(b) && a.size == b.size && a.size.AreDiagonal()
    requires 0 <= i <= a.size.row
    requires forall idx :: idx in result <==> InRange(a.size, idx) && idx.row < i
    requires forall idx :: idx in result ==> result[idx] == ProductEntries(a, b, ring, a.size)[idx]
    ensures forall idx :: idx in extended <==> InRange(a.size, idx) && idx.row <= i
    ensures forall idx :: idx in extended ==> extended[idx] == ProductEntries(a, b, ring, a.size)[idx]
  {
    extended := result;
    var j := 0;
    while j <= a.size.column
      invariant 0 <= j <= a.size.column + 1
      invariant forall idx :: idx in extended <==>
        InRange(a.size, idx) && (idx.row < i || (idx.row == i && idx.column < j))
      invariant forall idx :: idx in extended ==> extended[idx] == ProductEntries(a, b, ring, a.size)[idx]
    {
      var sum := ComputeEntry(a, b, ring, i, j, a.size.column + 1);
      extended := extended[Index(i, j) := sum];
      j := j + 1;
    }
  }

  /** The matrix product as the Java code computes it: the size checks first, in order, then
      every result coordinate `(i, j)` in row-major order gets the accumulated entry. */
  method ComputeTimes<S>(a: Matrix<S>, b: Matrix<S>, ring: Ring<S>) returns (r: Result<Matrix<S>, MatrixError>)
    requires Populated(a) && Populated(b)
    ensures r == Times(a, b, ring)
  {
    var size :- RequireMatchingSize(a, b);
    var square :- RequireDiagonal(size);
    var result: map<Index, S> := map[];
    var i := 0;
    while i <= size.row
      invariant 0 <= i && (i == 0 || i <= size.row + 1)
      invariant forall idx :: idx in result <==> InRange(size, idx) && idx.row < i
      invariant forall idx :: idx in result ==> result[idx] == ProductEntries(a, b, ring, size)[idx]
    {
      result := ComputeRow(a, b, ring, i, result);
      i := i + 1;
    }
    assert result == ProductEntries(a, b, ring, size);
    r := Success(Matrix(size, result));
  }

  /** The matrix sum as the Java code computes it: the size check, a row-major loop storing
      `ring.sum(a(idx), b(idx))` at every coordinate, and a rebuild of the result through the
      size-descriptor construction protocol. */
  method ComputePlus<S>(a: Matrix<S>, b: Matrix<S>, ring: Ring<S>) returns (r: Result<Matrix<S>, MatrixError>)
    requires Populated(a) && Populated(b)
    ensures r == Plus(a, b, ring)
  {
    var size :- RequireMatchingSize(a, b);
    var sums: map<Index, S> := map[];
    var row := 0;
    while row <= size.row
      invariant 0 <= row && (row == 0 || row <= size.row + 1)
      invariant forall idx :: idx in sums <==> InRange(size, idx) && idx.row < row
      invariant forall idx :: idx in sums ==> sums[idx] == ring.sum(a.entries[idx], b.entries[idx])
    {
      var col := 0;
      while col <= size.column
        invariant 0 <= col && (col == 0 || col <= size.column + 1)
        invariant forall idx :: idx in sums <==>
          InRange(size, idx) && (idx.row < row || (idx.row == row && idx.column < col))
        invariant forall idx :: idx in sums ==> sums[idx] == ring.sum(a.entries[idx], b.entries[idx])
      {
        var index := Index(row, col);
        sums := sums[index := ring.sum(a.entries[index], b.entries[index])];
        col := col + 1;
      }
      row := row + 1;
    }
    assert sums == SumEntries(a, b, ring, size);
    r := InstanceAt(size, Getter(sums, ring.zero));
  }
}
