/** Option and Result types used across the model for nullable columns and
    for operations that can fail with a database or form error. */
module Wrappers {

  /** A nullable value: SQL NULL, a TypeScript `null`/`undefined`, or a value. */
  datatype Option<+T> = None | Some(value: T) {

    /** The wrapped value, or `default` when absent (TypeScript `x ?? default`). */
    function GetOr(default: T): T {
      match this
      case Some(v) => v
      case None => default
    }
  }

  /** The outcome of an operation that can fail with an error value. */
  datatype Result<+R, +E> = Ok(value: R) | Err(error: E) {

    predicate IsFailure() {
      Err?
    }

    function PropagateFailure<U>(): Result<U, E>
      requires Err?
    {
      Err(error)
    }

    function Extract(): R
      requires Ok?
    {
      value
    }
  }
}
