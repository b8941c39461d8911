/** `Option` stands for Python's `None`-or-value and `Result` for a value or
    a raised exception. `Result` lets `:-` pass an exception on to the
    caller, as an uncaught Python exception would be. */
module Wrappers {

  datatype Option<+T> = None | Some(value: T)

  datatype Result<+T, +E> = Ok(value: T) | Err(error: E) {

    predicate IsFailure() {
      Err?
    }

    function PropagateFailure<U>(): Result<U, E>
      requires Err?
    {
      Err(error)
    }

    function Extract(): T
      requires Ok?
    {
      value
    }
  }
}
