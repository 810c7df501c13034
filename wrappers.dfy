/** Optional values and the outcome of a call that may throw an I/O exception. */
module Wrappers {

  /** Java's nullable reference or `Optional`: `None` stands for null / `Optional.empty()`. */
  datatype Option<+T> = None | Some(value: T)

  /** The result of a call that either returns a value or throws `IOException`. */
  datatype IoResult<+T> = Ok(value: T) | IoFailure
}
