/** The optional value used for a search that may not match and a split that may not apply. */
module Wrappers {
  datatype Option<+T> = None | Some(value: T)
}
