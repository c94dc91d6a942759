/** Optional values: `None` stands for the JavaScript `null` that marks a used slot. */
module Wrappers {
  datatype Option<+T> = None | Some(value: T)
}
