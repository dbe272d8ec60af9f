/** Optional values and the (value | error message) pairs the services return. */
module Outcomes {

  /** A value that may be absent: a form field that was not sent, a row that was not found. */
  datatype Option<+T> = None | Some(value: T)

  /** The outcome of a mutating service call: the new value, or the user-facing error message. */
  datatype Result<+T> = Ok(value: T) | Err(message: string)
}
