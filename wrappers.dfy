/** The optional value used wherever the source returns "a match or nothing". */
module Wrappers {

  datatype Option<+T> = None | Some(value: T)
}
