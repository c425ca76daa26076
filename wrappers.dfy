/** The Some/None datatype used where the source yields `undefined` (a failed `find`, a regex that does not match). */
module Wrappers {
  datatype Option<+T> = None | Some(value: T)
}
