/** The optional value returned by lookups: `Some(v)` stands for Go's `(v, true)` and
    `None` for `(zero value, false)`. */
module Wrappers {

  datatype Option<+T> = None | Some(value: T)
}
