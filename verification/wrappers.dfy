/** Failure-compatible wrappers shared by every module of the model. */
module Wrappers {

  /** A value that may be absent (the model's stand-in for a null reference). */
  datatype Option<+T> = None | Some(value: T)

  /** Either a value or the error that stopped the computation (the model's stand-in for an exception). */
  datatype Result<+T, +E> = Success(value: T) | Failure(error: E) {

    predicate IsFailure() {
      Failure?
    }

    function PropagateFailure<U>(): Result<U, E>
      requires Failure?
    {
      Failure(error)
    }

    function Extract(): T
      requires Success?
    {
      value
    }
  }
}
