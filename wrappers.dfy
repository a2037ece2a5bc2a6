/** Optional values, used wherever the C code passes or returns a possibly-NULL pointer. */
module Wrappers {
  datatype Option<+T> = None | Some(value: T)
}
