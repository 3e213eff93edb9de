/** The optional value used where the source has a missing value or a caught exception. */
module Wrappers {

  datatype Option<+T> = None | Some(value: T)
}
