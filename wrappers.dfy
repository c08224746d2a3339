/** Go's `(value, error)` pairs, as the model returns them. */
module Wrappers {

  /** A Go `error`: `nil`, or an error carrying its message. */
  datatype Error = Nil | Error(msg: string)

  /** A value that is present only when no error occurred. */
  datatype Result<T> = Ok(value: T) | Err(msg: string)
}
