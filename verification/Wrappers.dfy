/** Optional values, as std::optional and nullable results are used throughout. */
module Wrappers {
  datatype Option<+T> = None | Some(value: T)
}
