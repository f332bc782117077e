// Optional values, for the places where the C code passes or returns a
// reference that may be NULL.

module Wrappers {

  datatype Option<T> = None | Some(value: T)
}
