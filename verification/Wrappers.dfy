/** Failure-compatible result types, shared by every other module. */
module Wrappers {

  datatype Option<+T> = None | Some(value: T)

  /** What a fallible operation answers; `:-` passes an `Err` straight up. */
  datatype Result<+T, +E> = Ok(value: T) | Err(error: E) {

    predicate IsFailure() {
      Err?
    }

    function PropagateFailure<U>(): Result<U, E>
      requires Err?
    {
      Err(error)
    }

    function Extract(): T
      requires Ok?
    {
      value
    }
  }
}
