/** A value that may be missing: the null pointers and empty results of the other modules. */
module Wrappers {
  datatype Option<+T> = None | Some(value: T)
}
