/** Optional values: stands for an Objective-C reference that may be nil. */
module Wrappers {

  datatype Option<+T> = None | Some(value: T)
}
