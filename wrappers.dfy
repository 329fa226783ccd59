/** Optional values: the source signals "no value" with `null`. */
module Wrappers {

  datatype Option<+T> = None | Some(value: T)
}
