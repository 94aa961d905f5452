/** Optional values, used for "no entry found" and "no validation error". */
module Wrappers {

  /** A value that may be absent. */
  datatype Option<+T> = None | Some(value: T)
}
