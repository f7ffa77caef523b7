/** Optional values, used for the decoder's fallible pure steps. */
module Wrappers {
  datatype Option<+T> = None | Some(value: T)
}
