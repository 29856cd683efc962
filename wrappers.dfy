/** The optional value shared by the collapse engine and the host. */
module Wrappers {
  datatype Option<T> = None | Some(value: T)
}
