/** A value that may be missing, shared by the tool and the setup step. */
module Wrappers {
  datatype Option<X> = None | Some(value: X)
}
