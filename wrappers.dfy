/** A value that may be missing: SQL NULL, Python None, or "nothing found". */
module Wrappers {
  datatype Option<+T> = None | Some(value: T)
}
