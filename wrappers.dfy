/** Optional values: a timestamp that may fail to parse. */
module Wrappers {

  datatype Option<+T> = None | Some(value: T)
}
