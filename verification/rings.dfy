/** The arithmetic capability a caller hands to `Plus` and `Times`. The matrix code relies on the
    ring laws without ever checking them, so they appear here only as predicates that lemmas assume. */
module Rings {

  /** A zero element with a sum and a product over the element type `S`. */
  datatype Ring<!S> = Ring(zero: S, sum: (S, S) -> S, product: (S, S) -> S)

  ghost predicate SumCommutative<S(!new)>(ring: Ring<S>) {
    forall x, y :: ring.sum(x, y) == ring.sum(y, x)
  }

  ghost predicate SumAssociative<S(!new)>(ring: Ring<S>) {
    forall x, y, z :: ring.sum(ring.sum(x, y), z) == ring.sum(x, ring.sum(y, z))
  }

  /** `zero` is a two-sided identity of `sum`. */
  ghost predicate ZeroIsSumIdentity<S(!new)>(ring: Ring<S>) {
    forall x :: ring.sum(ring.zero, x) == x && ring.sum(x, ring.zero) == x
  }

  /** `zero` absorbs under `product` on both sides. In a ring with additive inverses this follows
      from distributivity; the record here carries no negation, so it is stated on its own. */
  ghost predicate ZeroAbsorbs<S(!new)>(ring: Ring<S>) {
    forall x :: ring.product(ring.zero, x) == ring.zero && ring.product(x, ring.zero) == ring.zero
  }

  /** `one` is a two-sided identity of `product`. */
  ghost predicate IsProductIdentity<S(!new)>(ring: Ring<S>, one: S) {
    forall x :: ring.product(one, x) == x && ring.product(x, one) == x
  }
}
