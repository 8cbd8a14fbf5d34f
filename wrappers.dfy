/** The optional value used by every matcher and search of the model. */
module Wrappers {
  datatype Option<+T> = None | Some(value: T)
}
