/** The optional value used wherever the JavaScript source reads a value that
    may be `undefined` (a missing key, a failed `parseInt`). */
module Wrappers {

  datatype Option<+T> = None | Some(value: T)
}
