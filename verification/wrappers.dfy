/** Optional values, used where the program reads a map entry that may be absent. */
module Wrappers {

  datatype Option<+T> = None | Some(value: T)
}
