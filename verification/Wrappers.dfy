/** The optional value used throughout the model for pointers that may be NULL. */
module Wrappers {
  datatype Option<+T> = None | Some(value: T)
}
