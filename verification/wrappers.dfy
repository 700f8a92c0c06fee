/** Optional values: Python's `None` for a missing parent, action or path. */
module Wrappers {

  datatype Option<+T> = None | Some(value: T)
}
