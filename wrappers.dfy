/** Optional values, standing for Python's `None` and for lxml lookups that find nothing. */
module Wrappers {
  datatype Option<+T> = None | Some(value: T)
}
