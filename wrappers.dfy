/** Optional values: a result that may be absent, such as the links read back from a file that is not in the expected format. */
module Wrappers {
  datatype Option<+T> = None | Some(value: T)
}
