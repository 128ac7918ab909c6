/** Optional values, used for the source's nullable fields and for error outcomes. */
module Wrappers {

  datatype Option<+T> = None | Some(value: T)
}
