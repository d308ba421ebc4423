/** Small failure-carrying datatypes shared by the other modules. */
module Outcomes {

  /** A value that may be absent, in place of a Java null. */
  datatype Option<T> = None | Some(value: T)

  /** How a call that may throw an IOException ended. */
  datatype Status = Ok | IoFailure
}
