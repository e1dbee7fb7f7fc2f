/** Failure-compatible result types shared by every module of the model. */
module Wrappers {

  /** A value or nothing. */
  datatype Option<+T> = None | Some(value: T)

  /** A value, or the error that the Go code returns instead of it. */
  datatype Result<+T, +E> = Success(value: T) | Failure(error: E) {
    predicate IsFailure() { Failure? }

    function PropagateFailure<U>(): Result<U, E>
      requires Failure?
    {
      Failure(error)
    }

    function Extract(): T
      requires Success?
    {
      value
    }
  }

  /** Success or the error that a Go function returning only `error` reports. */
  datatype Outcome<+E> = Pass | Fail(error: E)
}
