/** Optional values, used where the source yields `undefined`, `null` or "no match". */
module Wrappers {
  datatype Option<+T> = None | Some(value: T)
}
