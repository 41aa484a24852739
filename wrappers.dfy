/** Optional values: JavaScript's `undefined` for a property or a variable that may be absent. */
module Wrappers {

  datatype Option<+T> = None | Some(value: T)
}
