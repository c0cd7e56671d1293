/** A value that may be absent: SQL NULL, or the failure of a parse. */
module Wrappers {

  datatype Option<T> = None | Some(value: T)
}
