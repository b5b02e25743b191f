/** The optional value used wherever the Java code returns or stores `null` or an `Optional`. */
module Wrappers {
  datatype Option<+T> = None | Some(value: T)
}
