/** Optional values, used for the absent `key` of a choice and for lookups that can fail. */
module Wrappers {

  datatype Option<+T> = None | Some(value: T)
}
