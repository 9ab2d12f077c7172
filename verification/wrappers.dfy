/** Optional values, for "no file", "no line found" and "fetch failed". */
module Wrappers {
  datatype Option<+T> = None | Some(value: T)
}
