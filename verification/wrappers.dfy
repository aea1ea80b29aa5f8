/**
 * Option and Result types used by every component to model the values the
 * original code returns on success and the exceptions it throws on failure.
 */
module Wrappers {

  datatype Option<T> = None | Some(value: T)
  {
    predicate IsFailure() {
      None?
    }

    function PropagateFailure<U>(): Option<U>
      requires None?
    {
      None
    }

    function Extract(): T
      requires Some?
    {
      value
    }
  }

  /** A computation that either produced `value` or failed with `error`. */
  datatype Result<T, R> = Success(value: T) | Failure(error: R)
  {
    predicate IsFailure() {
      Failure?
    }

    function PropagateFailure<U>(): Result<U, R>
      requires Failure?
    {
      Failure(error)
    }

    function Extract(): T
      requires Success?
    {
      value
    }
  }
}
