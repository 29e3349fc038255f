/** Option and Result, the two wrappers the rest of the model is written with. */
module Wrappers {

  /** A value that may be absent: Go's nil-able pointer `*T`. */
  datatype Option<+T> = None | Some(value: T)

  /** A Go `(value, error)` pair in which exactly one side is meaningful. */
  datatype Result<+R, +E> = Ok(value: R) | Err(error: E)
}
