/** Results that may be missing */
module Wrappers {
  datatype Option<T> = None | Some(value: T)

  /** An exception has no value */
  datatype Result<T> = Ok(value: T) | Err
}
