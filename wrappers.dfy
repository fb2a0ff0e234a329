/** Optional values, used where the source passes a nil pointer or a nil map. */
module Wrappers {

  datatype Option<T> = None | Some(value: T)
}
