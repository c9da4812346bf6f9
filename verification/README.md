# Dense generic matrix (`MatrixMap`) in Dafny

This project models `MatrixMap`, a dense matrix over an arbitrary element type `S`. A matrix is
an association from `(row, column)` coordinates to elements together with a size descriptor
`(rows - 1, columns - 1)`. Its arithmetic is not fixed: every call of `plus` or `times` is handed a
`Ring` that supplies `zero`, `sum` and `product`.

Modules:

- `Results` holds `Option`, which stands for Java's `null` lookup answer, and `Result`, which
  stands for a thrown validation exception.
- `Indexes` holds the `Index` coordinate pair with its diagonal test, the rectangle membership
  test `InRange`, and the finite coordinate set `Cells`.
- `Rings` holds the `Ring` record of functions and the ring laws as predicates. The matrix code
  never checks the laws, so they appear only as lemma hypotheses.
- `MatrixMap` holds the `Matrix` datatype (its `size` field is the `size()` accessor) and the
  closed error type `MatrixError`, which is `InvalidLength(ROW|COLUMN, length)`,
  `InconsistentSize(thisSize, otherSize)` or `NonSquare(size)`. It also holds the three
  validators, the construction protocols, the three lookups, and `Plus`/`Times` as pure
  functions. The product entry is the recursive left fold `Dot`.
- `MatrixLoops` holds the row-major loops of the Java code (`createMatrix`, the `plus` loop and
  the triple `times` loop) as methods. Each is proved to compute exactly the declarative
  definition.
- `MatrixLaws` holds lemmas relating the operations:
  - rebuilding a matrix from its own lookup gives it back;
  - `Plus` is commutative and associative, and the zero matrix is its right identity;
  - `Constant` and `Identity` agree with `Instance`;
  - the identity matrix is a two-sided identity of `Times`.

All arguments are treated as non-null. The model is verified, not executed: every `ensures` clause,
loop invariant and lemma in the .dfy files is a proof obligation for the Dafny verifier.

## Model

| member | source | states |
|---|---|---|
| MatrixMap.RequireNonEmpty | Assignment2/ring/MatrixMap.java:230-236 | succeeds exactly for a positive length and returns it unchanged; otherwise fails with InvalidLength carrying the given cause and the offending length |
| MatrixMap.RequireMatchingSize | Assignment2/ring/MatrixMap.java:262-272 | succeeds exactly when both sizes are equal and returns that size; otherwise fails with InconsistentSize carrying (receiver size, other size) |
| MatrixMap.RequireDiagonal | Assignment2/ring/MatrixMap.java:288-294 | succeeds exactly for a square size descriptor and returns it; otherwise fails with NonSquare carrying the size |
| MatrixMap.CreateMatrix | Assignment2/ring/MatrixMap.java:16-28 | the association holds exactly the coordinates with 0 <= row < rows and 0 <= column < columns, each mapped to the generator's value; it is empty for non-positive dimensions (unbounded integers, without Java's 32-bit wrap) |
| MatrixLoops.BuildMatrix | Assignment2/ring/MatrixMap.java:16-28 | the row-major nested loop stores exactly the rectangle's coordinates, each with the generator's value, and so yields the association CreateMatrix describes |
| MatrixMap.Instance | Assignment2/ring/MatrixMap.java:33-38 | rows <= 0 fails with (ROW, rows) even when columns is also bad; otherwise columns <= 0 fails with (COLUMN, columns); otherwise the size is (rows-1, columns-1), the matrix is dense, every in-range lookup is the generator's value and every out-of-range lookup is absent |
| MatrixMap.InstanceAt | Assignment2/ring/MatrixMap.java:43-48 | for a size descriptor with non-negative components the result has exactly that size, is dense and holds the generator's values; a negative row (then column) component fails as an invalid length of component + 1 |
| MatrixMap.Constant | Assignment2/ring/MatrixMap.java:53-58 | fails exactly when n <= 0, and then only with cause ROW and length n; otherwise the matrix is square of size (n-1, n-1), dense, and holds v at every coordinate |
| MatrixMap.Identity | Assignment2/ring/MatrixMap.java:63-67 | fails exactly when n <= 0, only with cause ROW; otherwise the size is (n-1, n-1), the matrix is dense, diagonal coordinates hold the identity value and every other in-range coordinate holds zero |
| MatrixMap.From | Assignment2/ring/MatrixMap.java:72-94 | an empty array fails with (ROW, 0); a first row of length 0 fails with (COLUMN, 0); otherwise the size is (rows-1, firstRowLength-1), the matrix is dense and value(r, c) is a[r][c] |
| MatrixMap.Value | Assignment2/ring/MatrixMap.java:104-108 | answers the stored element, or absent exactly when the coordinate is unset; for a dense matrix that is exactly outside the rectangle |
| MatrixMap.ValueAt | Assignment2/ring/MatrixMap.java:112-124 | for non-negative arguments it is the plain lookup; a negative row or column is read as 0; on a dense matrix of non-negative size it is present exactly when row and column do not exceed the size |
| MatrixMap.ValueOf | Assignment2/ring/MatrixMap.java:128-133 | answers exactly what the other matrix stores at the coordinate, absent when it stores nothing |
| MatrixMap.Plus | Assignment2/ring/MatrixMap.java:154-170 | different sizes fail with InconsistentSize(this size, other size); otherwise, for a non-negative size, the result has the same size, is dense and holds ring.sum(this(idx), other(idx)) everywhere; only a negative size makes the re-validation fail |
| MatrixLoops.ComputePlus | Assignment2/ring/MatrixMap.java:158-169 | the row-major loop of sums followed by the rebuild through the size-descriptor protocol gives exactly Plus's result |
| MatrixMap.Times | Assignment2/ring/MatrixMap.java:174-200 | a size mismatch fails with InconsistentSize before any square check; a non-square common size fails with NonSquare carrying it; otherwise the result has the same size, is dense, and entry (i, j) is the left fold Dot of ring.sum from ring.zero over ring.product(this(i,k), other(k,j)) for ascending k |
| MatrixLoops.ComputeEntry | Assignment2/ring/MatrixMap.java:185-193 | the accumulator loop over ascending k ends with the left fold Dot |
| MatrixLoops.ComputeRow | Assignment2/ring/MatrixMap.java:183-196 | the column loop extends the rows already computed with exactly row i of the product |
| MatrixLoops.ComputeTimes | Assignment2/ring/MatrixMap.java:174-200 | the two size checks in order followed by the triple nested loop give exactly Times's result |
| MatrixLaws.RebuildFromLookup | Assignment2/ring/MatrixMap.java:169 | rebuilding a dense matrix of non-negative size from its own lookup through the size-descriptor protocol succeeds and reproduces the matrix |
| MatrixLaws.PlusCommutative | Assignment2/ring/MatrixMap.java:154-170 | with a commutative ring sum, a + b equals b + a when the sizes agree; otherwise both orders fail with the sizes named receiver first |
| MatrixLaws.PlusAssociative | Assignment2/ring/MatrixMap.java:154-170 | with an associative ring sum, (a + b) + c equals a + (b + c) for dense operands of one non-negative size |
| MatrixLaws.PlusZeroRight | Assignment2/ring/MatrixMap.java:154-170 | when zero is an identity of the ring sum, adding the all-zero matrix of the same size returns a dense matrix unchanged |
| MatrixLaws.ConstantIsInstance | Assignment2/ring/MatrixMap.java:53-58 | constant(n, v) equals instance(n, n, constant generator v) for every n, failures included |
| MatrixLaws.IdentityIsInstance | Assignment2/ring/MatrixMap.java:63-67 | identity(n, zero, one) equals instance(n, n, diagonal generator) for every n, failures included |
| MatrixLaws.DotIdentityRight | Assignment2/ring/MatrixMap.java:185-193 | folding the first n products of row i of a with column j of an identity gives zero while n <= j and a(i, j) afterwards |
| MatrixLaws.DotIdentityLeft | Assignment2/ring/MatrixMap.java:185-193 | folding the first n products of row i of an identity with column j of b gives zero while n <= i and b(i, j) afterwards |
| MatrixLaws.ProductEntriesIdentityRight | Assignment2/ring/MatrixMap.java:182-197 | every product entry of a times a same-size identity matrix is the corresponding entry of a |
| MatrixLaws.ProductEntriesIdentityLeft | Assignment2/ring/MatrixMap.java:182-197 | every product entry of a same-size identity matrix times b is the corresponding entry of b |
| MatrixLaws.TimesIdentityRight | Assignment2/ring/MatrixMap.java:174-200 | under the ring's identity laws and an absorbing zero, a times identity(n, zero, one) is a |
| MatrixLaws.TimesIdentityLeft | Assignment2/ring/MatrixMap.java:174-200 | under the ring's identity laws and an absorbing zero, identity(n, zero, one) times b is b |

## Left out

- `makeSparse` (Assignment2/ring/MatrixMap.java:202-205) and `SparseMatrixMap` are left out: they build a second, sparse storage variant that lives in another class, and this model covers only the dense `MatrixMap`.
- `toString` is left out. It is diagnostic rendering and depends on the element type's own `toString`.
- Null arguments are not modelled, so the `Objects.requireNonNull` checks are not modelled. Exception message strings are left out too, and so is the wrapping of the typed exceptions as causes of `IllegalArgumentException`/`IllegalStateException`. The closed `MatrixError` type replaces all of these.
- `null` elements are not modelled. Stored elements are never null, and a lookup of an unset coordinate is `None`.
- MatrixMap.Plus: requires both operands to be populated, meaning every in-range coordinate is stored. In Java an unset coordinate hands `null` to the ring, and that case is not modelled. Every construction protocol yields a dense matrix, which satisfies the requirement.
- MatrixMap.Times: requires both operands to be populated, for the same reason as Plus.
- MatrixMap.Plus: the generator handed to the rebuild answers `ring.zero` off the rectangle, where Java's `resultMatrix::get` answers `null`. The rebuild only reads inside the rectangle, so this value is never used.
- MatrixMap.From: requires every row to be at least as long as the first row. In Java a shorter row throws `ArrayIndexOutOfBoundsException`, because the `row < rows && col < columns` guard in the copy loop is always true. Extra elements in longer rows are ignored, as in Java. Leaving the cells of a short row unset is not what the code does, so it is not modelled either.
- MatrixMap.ValueAt: the `assert row > 0` and `assert column > 0` statements are not modelled. They contradict the clamp that follows them, and they would even reject 0. The model follows the clamp semantics, which is the behaviour with Java assertions disabled.
- MatrixMap.InstanceAt: does not model 32-bit overflow of `size.row() + 1` and `size.column() + 1`. Coordinates and lengths are unbounded integers. In Java a component equal to `Integer.MAX_VALUE` wraps to `Integer.MIN_VALUE`, so `instance(new Indexes(Integer.MAX_VALUE, 0), f)` fails at once with an invalid row length of `Integer.MIN_VALUE`; the model instead succeeds for that size.
- MatrixMap.CreateMatrix: does not model 32-bit overflow of `rows - 1` and `columns - 1`; the same holds for MatrixLoops.BuildMatrix. `createMatrix` is public and does no validation of its own. For a dimension of `Integer.MIN_VALUE`, Java's `rows - 1` wraps to `Integer.MAX_VALUE` and the `row <= size.row()` loop never ends, because `row++` wraps too. The model treats every non-positive dimension alike and returns the empty association. Through `instance`, `constant` and `identity` the length check runs first, so this case is unreachable there.
- MatrixLoops.BuildMatrix: its loop ends at once for a dimension of `Integer.MIN_VALUE`, where Java's loop never ends; see the CreateMatrix line above.
- MatrixMap.Instance: treats the generator as a pure total function, and the same holds for CreateMatrix, MatrixLoops.BuildMatrix, Plus, Times and the ring's `sum` and `product`. Java's `Function<Indexes, S>` and `Ring<S>` may keep state; the loops call the generator exactly once per coordinate in row-major order, and call the ring once per step in loop order. The model cannot observe how many calls are made or in what order. The row-major loop methods mirror that order, but their results depend only on the values computed.
- The ring laws are never enforced. They appear only as lemma hypotheses (`SumCommutative`, `SumAssociative`, `ZeroIsSumIdentity`, `ZeroAbsorbs`, `IsProductIdentity`). The ring record has no negation, so "zero absorbs under product" is stated as its own hypothesis and is not derived.
- `HashMap` storage is not modelled. A Dafny `map` from `Index` to the element type is used instead.
