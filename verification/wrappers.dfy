/** Optional values: a null pointer or an absent record. */
module Wrappers {
  datatype Option<+T> = None | Some(value: T)
}
