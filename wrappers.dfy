/** Option and Result, the two shapes in which the model reports absence and failure. */
module Wrappers {

  datatype Option<+T> = None | Some(value: T)

  /** `Err` stands for a panic of the source: an `unwrap`, `expect` or `assert_eq!` that fails. */
  datatype Result<+T, +E> = Ok(value: T) | Err(error: E)
}
