/** Optional values, used wherever a sample program can reject its input. */
module Wrappers {

  datatype Option<+T> = None | Some(value: T)
}
