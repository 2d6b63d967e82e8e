/** The optional result used where the source returns either a value or null. */
module Wrappers {
  datatype Option<+T> = None | Some(value: T)
}
