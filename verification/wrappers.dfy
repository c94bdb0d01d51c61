/** Optional values: `None` stands for the C null pointer. */
module Wrappers {
  datatype Option<+T> = None | Some(value: T)
}
