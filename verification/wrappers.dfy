/** Optional values: `None` stands for Python's `None`, and for "missing or raised" on page reads. */
module Wrappers {
  datatype Option<+T> = None | Some(value: T)
}
