/** Option, Result and Outcome: the model's stand-ins for Java's null and thrown exceptions. */
module Wrappers {

  /** A value that may be absent; `None` plays the part of a Java `null`. */
  datatype Option<+T> = None | Some(value: T)

  /** A computation that either returns a value or throws (the error). */
  datatype Result<+T, +E> = Ok(value: T) | Err(error: E)

  /** A `void` computation that either completes or throws. */
  datatype Outcome<+E> = Pass | Fail(error: E)
}
