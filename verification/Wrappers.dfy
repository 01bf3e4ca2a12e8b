/** Values that may be missing: an absent row, key or argument. */
module Wrappers {
  datatype Option<+T> = None | Some(value: T)
}
