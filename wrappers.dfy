/** Optional values: a byte read past the end of a Uint8Array is `undefined`. */
module Wrappers {
  datatype Option<+T> = None | Some(value: T)
}
