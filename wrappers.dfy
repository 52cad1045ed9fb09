/** Failure-compatible wrappers: Java's null as None, thrown exceptions as Err. */
module Wrappers {

  datatype Option<+T> = None | Some(value: T)

  datatype Result<+R, +E> = Ok(value: R) | Err(error: E)
}
