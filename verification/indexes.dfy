/** Matrix coordinates. An `Index` is also used, by convention, as a matrix's size descriptor
    `(rows - 1, columns - 1)`, i.e. the largest coordinate the matrix holds. */
module Indexes {

  /** A (row, column) pair. Nothing forbids negative components: range checks are the callers' job. */
  datatype Index = Index(row: int, column: int) {

    /** True iff the coordinate lies on the main diagonal. */
    predicate AreDiagonal() {
      row == column
    }
  }

  /** True iff `idx` is a coordinate of a matrix whose size descriptor is `size`. */
  predicate InRange(size: Index, idx: Index) {
    0 <= idx.row <= size.row && 0 <= idx.column <= size.column
  }

  /** The finite set of coordinates of a matrix whose size descriptor is `size`. */
  function Cells(size: Index): (cells: set<Index>)
    ensures forall idx :: idx in cells <==> InRange(size, idx)
  {
    var cells := set r: int, c: int | 0 <= r <= size.row && 0 <= c <= size.column :: Index(r, c);
    assert forall idx :: InRange(size, idx) ==> idx in cells by {
      forall idx | InRange(size, idx)
        ensures idx in cells
      {
        assert idx == Index(idx.row, idx.column);
      }
    }
    cells
  }
}
