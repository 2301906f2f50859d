/** The optional value shared by the modules of the model. */
module Wrappers {

  /** A value that may be absent: a nil pointer, a skipped line, a nil map. */
  datatype Option<T> = None | Some(value: T)
}
