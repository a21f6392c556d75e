/** Optional values, for results that Go reports as (value, error) or as a nil. */
module Wrappers {
  datatype Option<+T> = None | Some(value: T)
}
