/** Optional values, used for the optional aircraft type of a flight. */
module Wrappers {
  datatype Option<+T> = None | Some(value: T)
}
