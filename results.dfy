/** Failure-compatible wrappers standing in for Java's exceptions. */
module Results {

  datatype Option<+T> = None | Some(value: T)

  /** A value, or the exception that would have been thrown instead. */
  datatype Result<+T, +E> = Success(value: T) | Failure(error: E) {

    predicate IsFailure() {
      Failure?
    }

    function PropagateFailure<U>(): Result<U, E>
      requires Failure?
    {
      Failure(error)
    }

    function Extract(): T
      requires Success?
    {
      value
    }
  }

  /** The outcome of a void operation that may throw. */
  datatype Outcome<+E> = Pass | Fail(error: E)
}
