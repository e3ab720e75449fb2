/** The optional value used where the engine may return nothing. */
module Wrappers {
  datatype Option<+T> = None | Some(value: T)
}
