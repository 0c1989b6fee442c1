/** A value that may be missing: the component's `null` before a file is
    loaded or a comparison has run. */
module Wrappers {
  datatype Option<+T> = None | Some(value: T)
}
