/** Optional values (Java's nullable references) and outcomes that may end in a fault. */
module Wrappers {

  /** A Java reference that may be null: None stands for null. */
  datatype Option<+T> = None | Some(value: T)

  /** The only fault the matching code can raise: a null dereference. */
  datatype Fault = NullPointer

  /** A value, or the fault that a Java method would have thrown instead of returning it. */
  datatype Result<+T> = Success(value: T) | Failure(fault: Fault)
}
