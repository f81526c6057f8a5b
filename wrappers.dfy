/** The optional value used for "no path", absent parents and missing keys. */
module Wrappers {

  datatype Option<+T> = None | Some(value: T)
}
