/** Option and Result, used for Java's null values and thrown exceptions. */
module Wrappers {

  /** `None` stands for a Java `null`. */
  datatype Option<+T> = None | Some(value: T)

  /** `Err` stands for an exception the Java code throws. */
  datatype Result<+T, +E> = Ok(value: T) | Err(error: E)
}
