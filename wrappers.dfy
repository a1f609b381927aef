/** A value that may be absent: a C pointer that may be NULL, or getline at end of input. */
module Wrappers {
  datatype Option<T> = None | Some(value: T)
}
