/** Optional values: a Java reference that may be null, or a lookup that may fail. */
module Wrappers {

  datatype Option<+T> = None | Some(value: T)
}
