/** Optional values: TypeScript's `undefined` and Go's nil pointers. */
module Wrappers {

  datatype Option<+T> = None | Some(value: T)
}
