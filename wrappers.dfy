/** Optional values, used for the parser's error return and for store faults. */
module Wrappers {

  datatype Option<+T> = None | Some(value: T)
}
