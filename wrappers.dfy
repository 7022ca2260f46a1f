/** Optional values: `undefined`/absent results and operations that throw. */
module Wrappers {

  datatype Option<+T> = None | Some(value: T)
}
