/** The Option datatype used wherever the source returns a null pointer or NOT_FOUND. */
module Wrappers {
  datatype Option<+T> = None | Some(value: T)
}
