/** The optional value used for a parse outcome and for a file that may be absent. */
module Wrappers {

  datatype Option<+T> = None | Some(value: T)
}
