/** Failure-carrying results for the operations that raise in the original program. */
module Wrappers {

  datatype Option<+T> = None | Some(value: T)

  /** Either a value or the error the original program raises at that point. */
  datatype Result<+R, +E> = Ok(value: R) | Err(error: E)
}
