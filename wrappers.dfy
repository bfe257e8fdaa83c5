/** Optional values, used where the source returns null or "not found". */
module Wrappers {

  datatype Option<+T> = None | Some(value: T)
}
