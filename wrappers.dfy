/** The optional value used for SQL NULL columns and for operations that can fail. */
module Wrappers {
  datatype Option<+T> = None | Some(value: T)
}
