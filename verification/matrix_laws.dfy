/** Properties that follow from the construction protocols and the arithmetic algorithms,
    under ring laws the caller's `Ring` is assumed (never checked) to satisfy. */
module MatrixLaws {
  import opened Results
  import opened Indexes
  import opened Rings
  import opened MatrixMap

  /** Rebuilding a dense matrix from its own lookup through the size-descriptor protocol gives
      the matrix back. This is why the rebuild at the end of `Plus` never fails on a matrix of
      non-negative size and never changes the computed sums. */
  lemma RebuildFromLookup<S>(m: Matrix<S>, otherwise: S)
    requires IsDense(m) && m.size.row >= 0 && m.size.column >= 0
    ensures InstanceAt(m.size, Getter(m.entries, otherwise)) == Success(m)
  {
    var r := InstanceAt(m.size, Getter(m.entries, otherwise));
    assert r.value.entries.Keys == m.entries.Keys;
    assert forall idx :: idx in m.entries ==> r.value.entries[idx] == m.entries[idx];
    assert r.value.entries == m.entries;
  }

  /** The sum of two matrices does not depend on the order of the operands when the ring's sum
      is commutative; with different sizes both orders fail, each naming its receiver's size first. */
  lemma PlusCommutative<S(!new)>(a: Matrix<S>, b: Matrix<S>, ring: Ring<S>)
    requires Populated(a) && Populated(b)
    requires SumCommutative(ring)
    ensures a.size == b.size ==> Plus(a, b, ring) == Plus(b, a, ring)
    ensures a.size != b.size ==>
      && Plus(a, b, ring) == Failure(InconsistentSize(a.size, b.size))
      && Plus(b, a, ring) == Failure(InconsistentSize(b.size, a.size))
  {
    if a.size == b.size {
      var sums := SumEntries(a, b, ring, a.size);
      var swapped := SumEntries(b, a, ring, a.size);
      assert forall idx :: idx in sums ==> sums[idx] == swapped[idx] by {
        forall idx | idx in sums
          ensures sums[idx] == swapped[idx]
        {
          assert ring.sum(a.entries[idx], b.entries[idx]) == ring.sum(b.entries[idx], a.entries[idx]);
        }
      }
      assert sums == swapped;
    }
  }

  /** Two dense matrices of one size that agree at every coordinate of it are equal. */
  lemma DenseExtensionality<S>(m1: Matrix<S>, m2: Matrix<S>)
    requires IsDense(m1) && IsDense(m2) && m1.size == m2.size
    requires forall idx :: InRange(m1.size, idx) ==> m1.entries[idx] == m2.entries[idx]
    ensures m1 == m2
  {
  }

  /** Matrix sum is associative when the ring's sum is: summing `a + b` with `c` equals summing
      `a` with `b + c`, for dense operands of one non-negative size. */
  lemma PlusAssociative<S(!new)>(a: Matrix<S>, b: Matrix<S>, c: Matrix<S>, ring: Ring<S>)
    requires IsDense(a) && IsDense(b) && IsDense(c)
    requires a.size == b.size == c.size && a.size.row >= 0 && a.size.column >= 0
    requires SumAssociative(ring)
    ensures Plus(a, b, ring).Success? && Plus(b, c, ring).Success?
    ensures Plus(Plus(a, b, ring).value, c, ring) == Plus(a, Plus(b, c, ring).value, ring)
  {
    var ab := Plus(a, b, ring).value;
    var bc := Plus(b, c, ring).value;
    var left := Plus(ab, c, ring);
    var right := Plus(a, bc, ring);
    forall idx | InRange(a.size, idx)
      ensures left.value.entries[idx] == right.value.entries[idx]
    {
      var x, y, z := a.entries[idx], b.entries[idx], c.entries[idx];
      assert ring.sum(ring.sum(x, y), z) == ring.sum(x, ring.sum(y, z));
    }
    DenseExtensionality(left.value, right.value);
  }

  /** Adding the all-`zero` matrix of the same size leaves a dense matrix unchanged when `zero` is
      an identity of the ring's sum. */
  lemma PlusZeroRight<S(!new)>(a: Matrix<S>, ring: Ring<S>)
    requires IsDense(a) && a.size.row >= 0 && a.size.column >= 0
    requires ZeroIsSumIdentity(ring)
    ensures InstanceAt(a.size, (idx: Index) => ring.zero).Success?
    ensures Plus(a, InstanceAt(a.size, (idx: Index) => ring.zero).value, ring) == Success(a)
  {
    var z := InstanceAt(a.size, (idx: Index) => ring.zero).value;
    var r := Plus(a, z, ring).value;
    assert r.entries.Keys == a.entries.Keys;
    assert forall idx :: idx in a.entries ==> r.entries[idx] == a.entries[idx] by {
      forall idx | idx in a.entries
        ensures r.entries[idx] == a.entries[idx]
      {
        assert InRange(a.size, idx);
        assert ring.sum(a.entries[idx], ring.zero) == a.entries[idx];
      }
    }
    assert r.entries == a.entries;
  }

  /** The constant protocol agrees with the generator protocol fed a constant generator,
      including its failure for a non-positive size. */
  lemma ConstantIsInstance<S>(n: int, v: S)
    ensures Constant(n, v) == Instance(n, n, (idx: Index) => v)
  {
  }

  /** The identity protocol agrees with the generator protocol fed the diagonal generator,
      including its failure for a non-positive size. */
  lemma IdentityIsInstance<S>(n: int, zero: S, one: S)
    ensures Identity(n, zero, one) == Instance(n, n, (idx: Index) => if idx.AreDiagonal() then one else zero)
  {
  }

  /** `id` holds `one` on the diagonal of its rectangle and `zero` elsewhere in it. */
  ghost predicate IsIdentityMatrix<S>(id: Matrix<S>, zero: S, one: S) {
    && Populated(id)
    && forall idx :: InRange(id.size, idx) ==> id.entries[idx] == (if idx.AreDiagonal() then one else zero)
  }

  /** The first `n` steps of the fold for entry `(i, j)` of `a` times an identity matrix pick up
      `a(i, j)` exactly at step `j` and leave the accumulator alone at every other step. */
  lemma {:induction false} DotIdentityRight<S(!new)>(ring: Ring<S>, a: Matrix<S>, id: Matrix<S>, one: S, i: int, j: int, n: nat)
    requires Populated(a) && IsIdentityMatrix(id, ring.zero, one)
    requires 0 <= i <= a.size.row && 0 <= j <= id.size.column
    requires n <= a.size.column + 1 && n <= id.size.row + 1
    requires ZeroIsSumIdentity(ring) && ZeroAbsorbs(ring) && IsProductIdentity(ring, one)
    ensures n <= j ==> Dot(ring, a, id, i, j, n) == ring.zero
    ensures j < n ==> InRange(a.size, Index(i, j)) && Dot(ring, a, id, i, j, n) == a.entries[Index(i, j)]
  {
    if n > 0 {
      DotIdentityRight(ring, a, id, one, i, j, n - 1);
      var k := n - 1;
      assert InRange(a.size, Index(i, k)) && InRange(id.size, Index(k, j));
      var x := a.entries[Index(i, k)];
      if k == j {
        assert ring.product(x, one) == x;
        assert ring.sum(ring.zero, x) == x;
      } else {
        assert ring.product(x, ring.zero) == ring.zero;
        if k < j {
          assert ring.sum(ring.zero, ring.zero) == ring.zero;
        } else {
          assert ring.sum(a.entries[Index(i, j)], ring.zero) == a.entries[Index(i, j)];
        }
      }
    }
  }

  /** The first `n` steps of the fold for entry `(i, j)` of an identity matrix times `b` pick up
      `b(i, j)` exactly at step `i` and leave the accumulator alone at every other step. */
  lemma {:induction false} DotIdentityLeft<S(!new)>(ring: Ring<S>, id: Matrix<S>, b: Matrix<S>, one: S, i: int, j: int, n: nat)
    requires IsIdentityMatrix(id, ring.zero, one) && Populated(b)
    requires 0 <= i <= id.size.row && 0 <= j <= b.size.column
    requires n <= id.size.column + 1 && n <= b.size.row + 1
    requires ZeroIsSumIdentity(ring) && ZeroAbsorbs(ring) && IsProductIdentity(ring, one)
    ensures n <= i ==> Dot(ring, id, b, i, j, n) == ring.zero
    ensures i < n ==> InRange(b.size, Index(i, j)) && Dot(ring, id, b, i, j, n) == b.entries[Index(i, j)]
  {
    if n > 0 {
      DotIdentityLeft(ring, id, b, one, i, j, n - 1);
      var k := n - 1;
      assert InRange(id.size, Index(i, k)) && InRange(b.size, Index(k, j));
      var y := b.entries[Index(k, j)];
      if k == i {
        assert ring.product(one, y) == y;
        assert ring.sum(ring.zero, y) == y;
      } else {
        assert ring.product(ring.zero, y) == ring.zero;
        if k < i {
          assert ring.sum(ring.zero, ring.zero) == ring.zero;
        } else {
          assert ring.sum(b.entries[Index(i, j)], ring.zero) == b.entries[Index(i, j)];
        }
      }
    }
  }

  /** Every product entry of `a` times an identity matrix of the same square size is the
      corresponding entry of `a`. */
  lemma ProductEntriesIdentityRight<S(!new)>(a: Matrix<S>, id: Matrix<S>, ring: Ring<S>, one: S)
    requires IsDense(a) && IsIdentityMatrix(id, ring.zero, one)
    requires a.size == id.size && a.size.AreDiagonal()
    requires ZeroIsSumIdentity(ring) && ZeroAbsorbs(ring) && IsProductIdentity(ring, one)
    ensures ProductEntries(a, id, ring, a.size) == a.entries
  {
    var p := ProductEntries(a, id, ring, a.size);
    forall idx | idx in a.entries
      ensures idx in p && p[idx] == a.entries[idx]
    {
      assert InRange(a.size, idx) && idx == Index(idx.row, idx.column);
      DotIdentityRight(ring, a, id, one, idx.row, idx.column, a.size.column + 1);
    }
    assert p.Keys == a.entries.Keys;
  }

  /** Every product entry of an identity matrix times `b` of the same square size is the
      corresponding entry of `b`. */
  lemma ProductEntriesIdentityLeft<S(!new)>(id: Matrix<S>, b: Matrix<S>, ring: Ring<S>, one: S)
    requires IsIdentityMatrix(id, ring.zero, one) && IsDense(b)
    requires id.size == b.size && b.size.AreDiagonal()
    requires ZeroIsSumIdentity(ring) && ZeroAbsorbs(ring) && IsProductIdentity(ring, one)
    ensures ProductEntries(id, b, ring, b.size) == b.entries
  {
    var p := ProductEntries(id, b, ring, b.size);
    forall idx | idx in b.entries
      ensures idx in p && p[idx] == b.entries[idx]
    {
      assert InRange(b.size, idx) && idx == Index(idx.row, idx.column);
      DotIdentityLeft(ring, id, b, one, idx.row, idx.column, b.size.column + 1);
    }
    assert p.Keys == b.entries.Keys;
  }

  /** Multiplying a dense `n` by `n` matrix on the right by the identity built from the ring's
      `zero` and a two-sided product identity `one` gives the matrix back. */
  lemma TimesIdentityRight<S(!new)>(a: Matrix<S>, n: int, ring: Ring<S>, one: S)
    requires n > 0 && IsDense(a) && a.size == Index(n - 1, n - 1)
    requires ZeroIsSumIdentity(ring) && ZeroAbsorbs(ring) && IsProductIdentity(ring, one)
    ensures Identity(n, ring.zero, one).Success?
    ensures Times(a, Identity(n, ring.zero, one).value, ring) == Success(a)
  {
    var id := Identity(n, ring.zero, one).value;
    assert IsIdentityMatrix(id, ring.zero, one);
    ProductEntriesIdentityRight(a, id, ring, one);
  }

  /** Multiplying a dense `n` by `n` matrix on the left by the identity built from the ring's
      `zero` and a two-sided product identity `one` gives the matrix back. */
  lemma TimesIdentityLeft<S(!new)>(b: Matrix<S>, n: int, ring: Ring<S>, one: S)
    requires n > 0 && IsDense(b) && b.size == Index(n - 1, n - 1)
    requires ZeroIsSumIdentity(ring) && ZeroAbsorbs(ring) && IsProductIdentity(ring, one)
    ensures Identity(n, ring.zero, one).Success?
    ensures Times(Identity(n, ring.zero, one).value, b, ring) == Success(b)
  {
    var id := Identity(n, ring.zero, one).value;
    assert IsIdentityMatrix(id, ring.zero, one);
    ProductEntriesIdentityLeft(id, b, ring, one);
  }
}
