/** An optional value, as returned by dictionary lookups and fallible reads. */
module Wrappers {
  datatype Option<+T> = None | Some(value: T)
}
