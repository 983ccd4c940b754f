/** Optional values: a row that a lookup may not find, a nullable timestamp. */
module Wrappers {

  datatype Option<+T> = None | Some(value: T)
}
