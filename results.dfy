/** Optional values and the outcome of a call that may throw. */
module Results {

  datatype Option<+T> = None | Some(value: T)

  /** `Err` carries the message of the error the JavaScript call would have thrown. */
  datatype Result<+T> = Ok(value: T) | Err(message: string)
}
