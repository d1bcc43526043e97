/** The optional value used for a lookup that may find nothing and for an
    input the user may cancel. */
module Wrappers {
  datatype Option<+T> = None | Some(value: T)
}
