/** Result types shared by the roster reader and the analyzer. */
module Wrappers {

  /** A value that may be absent (the source's `null`). */
  datatype Option<+T> = None | Some(value: T)

  /** A computation that either yields a value or fails with an error (the source's exceptions). */
  datatype Result<+R, +E> = Ok(value: R) | Err(error: E)

  /** A check that either passes or fails with an error, carrying no value. */
  datatype Outcome<+E> = Pass | Fail(error: E)
}
