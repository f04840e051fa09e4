/** Optional values. `None` stands for an IEEE quiet NaN (or any other
    non-finite result) wherever the modelled code returns a floating point
    value that may be undefined. */
module Wrappers {

  datatype Option<+T> = None | Some(value: T)
}
