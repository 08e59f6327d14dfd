/** A value that may be absent: the model of a Java `null` or `Optional`. */
module Wrappers {
  datatype Option<T> = None | Some(value: T)
}
