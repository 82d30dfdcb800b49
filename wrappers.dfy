/** Optional values, used for Python's `None` and for `dict.get`. */
module Wrappers {

  datatype Option<+T> = None | Some(value: T)
}
