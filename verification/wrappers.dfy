/** Failure-compatible wrappers used across the model: `Option` stands for a
    JavaScript reference that may be `null`/`undefined`, `Result` for an
    operation that may throw. */
module Wrappers {

  datatype Option<+T> = None | Some(value: T)

  datatype Result<+T, +E> = Ok(value: T) | Err(error: E) {
    predicate IsFailure() {
      Err?
    }

    function PropagateFailure<U>(): Result<U, E>
      requires Err?
    {
      Err(error)
    }

    function Extract(): T
      requires Ok?
    {
      value
    }
  }

  /** What the core can throw: the string `'unsupported'`, the
      `TypeError` of reading a property of `undefined`/`null` or of calling
      a method that does not exist, or the `ReferenceError` of calling a
      function that is not defined. */
  datatype Thrown = Unsupported | TypeError | ReferenceError
}
