/** The optional value used by the model decoder of the write-ahead log. */
module Wrappers {

  datatype Option<+T> = None | Some(value: T)
}
