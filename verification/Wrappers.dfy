/** Optional values and results that carry an error, used throughout the model. */
module Wrappers {

  datatype Option<+T> = None | Some(value: T)

  /** A result; `:-` propagates a failure, as a C++ exception or a crash would. */
  datatype Result<+T, +E> = Success(value: T) | Failure(error: E) {
    predicate IsFailure() {
      Failure?
    }

    function PropagateFailure<U>(): Result<U, E>
      requires Failure?
    {
      Failure(error)
    }

    function Extract(): T
      requires Success?
    {
      value
    }
  }
}
