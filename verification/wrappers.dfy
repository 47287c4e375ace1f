/** The optional and fallible results used across the model. */
module Wrappers {

  /** A value that may be absent: `std::nullopt`, or a `false` from a selection. */
  datatype Option<T> = None | Some(value: T)

  /**
    The outcome of a constructor that may throw: the constructed value, or
    the reason it threw. The three members below let `:-` pass an error on.
   */
  datatype Result<T, E> = Success(value: T) | Failure(error: E) {
    predicate IsFailure() {
      Failure?
    }

    function PropagateFailure<U>(): Result<U, E>
      requires Failure?
    {
      Failure(error)
    }

    function Extract(): T
      requires Success?
    {
      value
    }
  }
}
