/** Optional values: a nil NSDecimalNumber coordinate, a missing parent type. */
module Wrappers {
  datatype Option<+T> = None | Some(value: T)
}
