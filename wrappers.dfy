/** The optional-value datatype used for Python attributes that may be absent
    (`hasattr`) and for JavaScript fields that may be missing. */
module Wrappers {
  datatype Option<+T> = None | Some(value: T)
}
