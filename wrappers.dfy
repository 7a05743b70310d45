/** Failure-carrying values shared by the rest of the model. */
module Wrappers {

  /** An optional value: `None` where the source returns `None`. */
  datatype Option<+T> = None | Some(value: T)

  /** The outcome of an operation that can abort: `Err` carries why. */
  datatype Result<+T, +E> = Ok(value: T) | Err(error: E)
}
