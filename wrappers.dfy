/** Option and Result values for the optional and error-carrying returns of the monitor's parsers. */
module Wrappers {

  /** A value that may be absent, such as a `VmRSS:` field that no line supplies. */
  datatype Option<+T> = None | Some(value: T)

  /** A value or an error, as Go returns a pair `(value, err)`. */
  datatype Result<+T, +E> = Ok(value: T) | Err(error: E)
}
