/** Optional values: JavaScript's `undefined` / absent property. */
module Wrappers {
  datatype Option<+T> = None | Some(value: T)
}
