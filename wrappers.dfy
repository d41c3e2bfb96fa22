/** Optional values: an absent error message, a section that is not found. */
module Wrappers {
  datatype Option<+T> = None | Some(value: T)
}
