/**
 * Failure-compatible wrappers. `Option` stands for PHP's nullable values
 * (and for the `false` that strpos/strstr return on a miss); `Result`
 * stands for a computation that may throw, so that the exceptions of the
 * parser become visible in the types and `:-` propagates them.
 */
module Wrappers {

  datatype Option<+T> = None | Some(value: T)

  datatype Result<+T, +E> = Success(value: T) | Failure(error: E) {

    predicate IsFailure() {
      Failure?
    }

    function PropagateFailure<U>(): Result<U, E>
      requires Failure?
    {
      Failure(error)
    }

    function Extract(): T
      requires Success?
    {
      value
    }
  }
}
