/** Failure-carrying values: Java's `null` and the out-of-bounds crash on a
    short request line become explicit values of these types. */
module Wrappers {

  datatype Option<+T> = None | Some(value: T)

  datatype Result<+R, +E> = Ok(value: R) | Err(error: E)
}
