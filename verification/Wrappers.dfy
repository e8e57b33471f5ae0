/** Optional values: Go's (value, error) returns and missing map entries. */
module Wrappers {
  datatype Option<+T> = None | Some(value: T)
}
