/** Optional values: Python's `None` beside a real value. */
module Wrappers {
  datatype Option<T> = None | Some(value: T)
}
