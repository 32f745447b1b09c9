/** Optional values and outcomes shared by the other modules. */
module Results {

  /** A value that may be absent (JavaScript `undefined`). */
  datatype Option<T> = None | Some(value: T)

  /** The outcome of an operation: a value, or the message of the Error the
      operation throws or hands to its callback. */
  datatype Result<T> = Ok(value: T) | Fail(error: string)
}
