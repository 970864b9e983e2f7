/** Option and Result, the two failure-carrying values the model uses. */
module Wrappers {

  /** An optional value. For a Java reference, None stands for null. */
  datatype Option<+T> = None | Some(value: T)

  /** A value or the exception that the Java code would have thrown instead. */
  datatype Result<+R, +E> = Ok(value: R) | Err(error: E)
}
