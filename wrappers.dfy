/** Optional values, used wherever the converter returns None or a lookup can miss. */
module Wrappers {
  datatype Option<+T> = None | Some(value: T)
}
