/** A value that may be missing, for pointers that may be nil. */
module Wrappers {
  datatype Option<+T> = None | Some(value: T)
}
