/** The optional value used for results that a panic can replace. */
module Wrappers {
  datatype Option<T> = None | Some(value: T)
}
