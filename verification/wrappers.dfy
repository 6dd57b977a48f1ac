/** Failure-compatible datatypes shared by every layer of the model. */
module Wrappers {

  /** A value that may be absent: the model of a nullable return (`T | null`). */
  datatype Option<+T> = None | Some(value: T)

  /** Either a successful value or the error the operation threw. */
  datatype Result<+T, +E> = Success(value: T) | Failure(error: E) {

    predicate IsFailure() {
      Failure?
    }

    function PropagateFailure<U>(): Result<U, E>
      requires Failure?
    {
      Failure(error)
    }

    function Extract(): T
      requires Success?
    {
      value
    }
  }
}
