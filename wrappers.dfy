/** The optional value that stands for a possibly-null pointer result. */
module Wrappers {
  datatype Option<+T> = None | Some(value: T)
}
