/** Failure-carrying results used in place of Java's null and exceptions. */
module Wrappers {

  /** `None` stands for Java's `null` or for "not of the expected class". */
  datatype Option<+T> = None | Some(value: T)

  /** A computation that either passes or reports an error, with no value. */
  datatype Outcome<+E> = Pass | Fail(error: E)
}
