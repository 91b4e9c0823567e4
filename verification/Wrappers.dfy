/** Optional values, used wherever the program has a null pointer or a missing entry. */
module Wrappers {
  datatype Option<+T> = None | Some(value: T)
}
