/** Optional values: a SQL NULL, a row that is not there. */
module Wrappers {

  datatype Option<+T> = None | Some(value: T)
}
