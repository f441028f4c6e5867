/** Optional values: the model of Python's `X | None`. */
module Wrappers {

  datatype Option<+T> = None | Some(value: T)
}
