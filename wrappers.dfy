/** The optional value used for the C null pointer and for absent results. */
module Wrappers {
  datatype Option<+T> = None | Some(value: T)
}
