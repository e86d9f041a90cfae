/** Failure-compatible wrappers used throughout the model. */
module Wrappers {

  /** A value that may be missing (Go's `(v, ok)` pairs and nil results). */
  datatype Option<+T> = None | Some(value: T)

  /** A value or the text of a Go `error`. */
  datatype Result<+T> = Ok(value: T) | Err(error: string)
}
