/** Optional values, for lookups and for a revision marker that may be absent. */
module Wrappers {

  datatype Option<+T> = None | Some(value: T)
}
