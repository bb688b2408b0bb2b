/** Optional values: the model of Python's `None` / `False` sentinel results. */
module Wrappers {
  datatype Option<+T> = None | Some(value: T)
}
