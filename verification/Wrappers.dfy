/** Optional values, used where the source returns None, b"" or raises. */
module Wrappers {
  datatype Option<+T> = None | Some(value: T)
}
