/** Optional values and failure-compatible results for the engine's error paths. */
module Wrappers {

  /** A value that may be absent; also stands for a pandas cell holding NaN. */
  datatype Option<+T> = None | Some(value: T)

  /** Either a computed value or the error the source would have raised. */
  datatype Result<+R, +E> = Success(value: R) | Failure(error: E) {

    predicate IsFailure() {
      Failure?
    }

    function PropagateFailure<U>(): Result<U, E>
      requires Failure?
    {
      Failure(error)
    }

    function Extract(): R
      requires Success?
    {
      value
    }
  }
}
