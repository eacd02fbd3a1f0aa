/** Optional values: the model's explicit form of Python's "value or nothing" results. */
module Wrappers {

  datatype Option<+T> = None | Some(value: T)
}
