/** Option and Result types used throughout the model. */
module Wrappers {

  /** A value that may be missing; stands in for a C pointer that may be NULL. */
  datatype Option<+T> = None | Some(value: T) {

    /** Returns the value, or `default` when there is none. */
    function GetOr(default: T): T
    {
      match this
      case Some(v) => v
      case None => default
    }
  }

  /** Success with a value, or an error; failure-compatible, so `:-` propagates errors. */
  datatype Result<+T, +E> = Ok(value: T) | Err(error: E) {

    predicate IsFailure()
    {
      Err?
    }

    function PropagateFailure<U>(): Result<U, E>
      requires Err?
    {
      Err(error)
    }

    function Extract(): T
      requires Ok?
    {
      value
    }
  }
}
