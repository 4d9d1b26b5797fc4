/** Optional values: `None` stands for the source's `None` and `NaN` markers. */
module Wrappers {

  datatype Option<+T> = None | Some(value: T)
}
