/** The optional result of an operation that can fail. */
module Wrappers {
  datatype Option<T> = None | Some(value: T)
}
