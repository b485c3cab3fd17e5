/** A value that may be missing: a NULL pointer, or what a failed call does not return. */
module Wrappers {
  datatype Option<T> = None | Some(value: T)
}
