/** Optional values: `fgetc` yields a byte or nothing at the end of the stream. */
module Wrappers {

  datatype Option<+T> = None | Some(value: T)
}
