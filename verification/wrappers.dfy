/** Failure-compatible Option and Result datatypes used across the model.
    `Result` stands for Rust's `Result<T, Box<dyn Error>>`; the error side is a
    datatype of error kinds rather than message text. */
module Wrappers {

  datatype Option<+T> = None | Some(value: T)

  datatype Result<+R, +E> = Success(value: R) | Failure(error: E) {

    predicate IsFailure() {
      Failure?
    }

    function PropagateFailure<U>(): Result<U, E>
      requires Failure?
    {
      Failure(error)
    }

    function Extract(): R
      requires Success?
    {
      value
    }
  }
}
