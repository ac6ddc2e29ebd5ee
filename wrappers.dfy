/** The optional value used for Python's `None` results and for lookups and
    conversions that raise. */
module Wrappers {
  datatype Option<T> = None | Some(value: T)
}
