/** Optional values: an absent classifier probability is `None`. */
module Wrappers {

  datatype Option<+T> = None | Some(value: T)
}
