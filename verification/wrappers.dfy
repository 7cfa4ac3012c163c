/** The optional value used for "no move" and for a snapshot that does not parse. */
module Wrappers {
  datatype Option<T> = None | Some(value: T)
}
