/** Failure-compatible result types used by every operation that can raise. */
module Wrappers {

  datatype Option<+T> = None | Some(value: T)

  /** A value, or the exception the operation raises instead. */
  datatype Result<+R, +E> = Success(value: R) | Failure(error: E) {

    predicate IsFailure() {
      Failure?
    }

    function PropagateFailure<U>(): Result<U, E>
      requires Failure?
    {
      Failure(error)
    }

    function Extract(): R
      requires Success?
    {
      value
    }
  }
}
