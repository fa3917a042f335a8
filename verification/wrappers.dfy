/** Failure-carrying result types shared by the front end, the interpreter and the backend. */
module Wrappers {

  /** An optional value: the model's stand-in for Rust's `Option`. */
  datatype Option<+T> = None | Some(value: T)

  /** A value or an error: the model's stand-in for a Rust panic or `Result::Err`. */
  datatype Result<+T, +E> = Success(value: T) | Failure(error: E)
}
