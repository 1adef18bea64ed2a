/** Optional values: a document or field that may be absent. */
module Wrappers {

  datatype Option<+T> = None | Some(value: T)
}
