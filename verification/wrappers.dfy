/** Optional values, standing in for the nullable `Account*` the repository hands out. */
module Wrappers {

  datatype Option<+T> = None | Some(value: T)
}
