/** The optional value used by entry look-ups. */
module Wrappers {

  datatype Option<+T> = None | Some(value: T)
}
