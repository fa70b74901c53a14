/** Optional values: the model's rendering of JavaScript's `null`-or-object. */
module Wrappers {

  /** `None` stands for `null`, `Some(v)` for a present (and therefore truthy) object. */
  datatype Option<+T> = None | Some(value: T)
}
