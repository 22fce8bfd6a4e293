/** The optional value used for results that may be missing (a null return in the client). */
module Wrappers {
  datatype Option<+T> = None | Some(value: T)
}
