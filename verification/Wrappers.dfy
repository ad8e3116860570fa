/** A value that may be absent: a null pointer, or the result of an operation that can fail. */
module Wrappers {

  datatype Option<+T> = None | Some(value: T)
}
