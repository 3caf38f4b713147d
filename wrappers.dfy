/** Optional values: a missing (NaN/None) table cell, an absent dictionary key. */
module Wrappers {
  datatype Option<+T> = None | Some(value: T)
}
