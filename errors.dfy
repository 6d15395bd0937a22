/** The error surface of the codec (instructor/src/error.rs) and the Result type every fallible
    operation returns. */
module Errors {

  /** The four error kinds; no other kind exists. */
  datatype Error = TooShort | TooLong | InvalidValue | UnexpectedLength

  /** Rust's `Result<T, E>`. It is failure-compatible, so `:-` plays the part of `?`. */
  datatype Result<+T, +E> = Ok(value: T) | Err(error: E) {

    predicate IsFailure() {
      Err?
    }

    function PropagateFailure<U>(): Result<U, E>
      requires Err?
    {
      Err(error)
    }

    function Extract(): T
      requires Ok?
    {
      value
    }
  }

  /** Rust's `Option<T>`. */
  datatype Option<+T> = None | Some(value: T)
}
