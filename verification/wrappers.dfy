/** Failure-carrying return values used in place of Java's `null` and exceptions. */
module Wrappers {

  /** `None` stands for a Java `null` reference. */
  datatype Option<+T> = None | Some(value: T)

  /** `Err` stands for an exception; what the Java code wrote before throwing is stated by the caller. */
  datatype Result<+T, +E> = Ok(value: T) | Err(error: E)
}
