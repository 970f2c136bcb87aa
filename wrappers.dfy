/** The optional value used for Python's `None` in the manifest builder's slots and settings. */
module Wrappers {
  datatype Option<+T> = None | Some(value: T)
}
