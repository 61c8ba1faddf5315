/** The optional value returned by a cache lookup: Go's `(value, ok)` pair,
    where `ok == false` comes with a nil value. */
module Wrappers {

  datatype Option<+T> = None | Some(value: T)
}
