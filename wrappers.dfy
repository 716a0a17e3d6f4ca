/** Optional values: the model's stand-in for Python's `None` and for calls that raise. */
module Wrappers {
  datatype Option<+T> = None | Some(value: T)
}
