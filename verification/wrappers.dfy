/** The optional value shared by the modules of this model. */
module Wrappers {

  /** A value that may be missing, where the script has `null` or `undefined`. */
  datatype Option<+T> = None | Some(value: T)
}
