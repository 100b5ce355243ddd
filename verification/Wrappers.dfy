/** The result type the models share. */
module Wrappers {

  /** A value that may be absent: a C pointer that may be NULL, a Python value that may be None. */
  datatype Option<+T> = None | Some(value: T)
}
