/** Failure-compatible result types used for the C++ exceptions of the search server. */
module Wrappers {

  datatype Option<+T> = None | Some(value: T)

  /** A value, or the error that the C++ code would have thrown instead. */
  datatype Result<+R, +E> = Success(value: R) | Failure(error: E) {
    predicate IsFailure() { Failure? }

    function PropagateFailure<U>(): Result<U, E>
      requires Failure?
    {
      Failure(error)
    }

    function Extract(): R
      requires Success?
    {
      value
    }
  }

  /** A call that either completes or throws, without a value. */
  datatype Outcome<+E> = Pass | Fail(error: E)
}
