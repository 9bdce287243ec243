/** Optional values, used where the source treats a value as "not there". */
module Wrappers {

  datatype Option<+T> = None | Some(value: T)
}
