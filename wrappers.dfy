/** Optional values: JavaScript's `null`/`undefined` and an exception that aborts a step. */
module Wrappers {
  datatype Option<+T> = None | Some(value: T)
}
