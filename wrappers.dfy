/** Optional values: an absent Python argument, a conversion that failed. */
module Wrappers {

  datatype Option<+T> = None | Some(value: T)
}
