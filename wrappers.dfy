/** Optional values, used for Go's `(value, error)` pairs and for nil errors. */
module Wrappers {

  /** `None` stands for a missing value (a nil error, a failed parse). */
  datatype Option<+T> = None | Some(value: T)
}
