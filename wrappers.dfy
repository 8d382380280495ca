/** Failure-carrying values: the model's stand-in for JavaScript's thrown errors and
    for `null`/absent properties. */
module Wrappers {

  datatype Option<+T> = None | Some(value: T) {
    function GetOr(default: T): T {
      match this
      case Some(v) => v
      case None => default
    }
  }

  /** `Ok(v)`: the operation returned `v`; `Err(e)`: it threw `e`. */
  datatype Result<+T, +E> = Ok(value: T) | Err(error: E) {
    predicate IsFailure() {
      Err?
    }

    function PropagateFailure<U>(): Result<U, E>
      requires Err?
    {
      Err(error)
    }

    function Extract(): T
      requires Ok?
    {
      value
    }
  }

  /** An operation that returns nothing, or throws. */
  datatype Outcome<+E> = Pass | Fail(error: E)
}
