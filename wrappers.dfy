/** Option and Result, the two wrappers the model uses for Go's nil values and error returns. */
module Wrappers {

  /** A value that may be absent: Go's nil map, nil pointer or nil error. */
  datatype Option<+T> = None | Some(value: T)

  /** A successful value or an error, as Go's `(T, error)` return pairs. */
  datatype Result<+T, +E> = Ok(value: T) | Err(error: E)
}
