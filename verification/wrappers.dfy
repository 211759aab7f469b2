/** Failure-carrying datatypes shared by the model: `Option` stands for a
    nullable reference, `Result` for a call that either returns a value or
    throws. */
module Wrappers {

  /** A possibly-null reference: `None` is C#'s `null`. */
  datatype Option<+T> = None | Some(value: T)

  /** The outcome of an operation that either returns `value` or raises `error`. */
  datatype Result<+T, +E> = Success(value: T) | Failure(error: E)
}
