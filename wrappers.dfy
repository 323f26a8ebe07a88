/** Optional values: a DOM query that finds nothing, an attribute that is unset,
    a handler that emits nothing. */
module Wrappers {

  datatype Option<+T> = None | Some(value: T)

}
