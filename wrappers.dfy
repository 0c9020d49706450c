/** Optional values: the model's stand-in for a jQuery selection that may be empty. */
module Wrappers {
  datatype Option<+T> = None | Some(value: T)
}
