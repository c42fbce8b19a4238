/** Optional values: the model's stand-in for JavaScript's `undefined`/`null`. */
module Wrappers {

  /** `None` is an absent (or `null`) field; `Some(v)` a present one. */
  datatype Option<+T> = None | Some(value: T)
}
