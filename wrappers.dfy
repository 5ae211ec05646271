/** Optional values: a form field or upload that may be absent. */
module Wrappers {

  datatype Option<+T> = None | Some(value: T)
}
