/** Optional values, for the source's `undefined`/absent configuration. */
module Wrappers {

  datatype Option<+T> = None | Some(value: T)
}
