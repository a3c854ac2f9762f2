/** The optional value used for a first match that may not exist and for a read that may fail. */
module Wrappers {
  datatype Option<T> = None | Some(value: T)
}
