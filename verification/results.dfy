/** Failure-compatible wrappers used in place of Java's `null` results and thrown exceptions. */
module Results {

  /** An optional value: `None` stands for the `null` a lookup answers at an unset coordinate. */
  datatype Option<+T> = None | Some(value: T)

  /** Either a computed value or the error condition the Java code would throw. */
  datatype Result<+T, +E> = Success(value: T) | Failure(error: E) {

    predicate IsFailure() {
      Failure?
    }

    function PropagateFailure<U>(): Result<U, E>
      requires Failure?
    {
      Failure(error)
    }

    function Extract(): T
      requires Success?
    {
      value
    }
  }
}
