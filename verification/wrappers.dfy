/** Failure-carrying datatypes used by every other module: an optional value
    (Python's None, JavaScript's null/undefined) and a value-or-error result
    (a raised exception or an error response). */
module Wrappers {

  datatype Option<+T> = None | Some(value: T) {

    /** The value, or `default` when absent. */
    function GetOr(default: T): T
    {
      match this
      case Some(v) => v
      case None => default
    }
  }

  datatype Result<+T, +E> = Ok(value: T) | Err(error: E) {

    predicate IsFailure() {
      Err?
    }

    function PropagateFailure<U>(): Result<U, E>
      requires Err?
    {
      Err(error)
    }

    function Extract(): T
      requires Ok?
    {
      value
    }
  }

  /** A check that either passes or fails with an error and carries no value. */
  datatype Outcome<+E> = Pass | Fail(error: E)
}
