/** The optional value used wherever the handler keeps an empty string for "nothing". */
module Wrappers {

  datatype Option<+T> = None | Some(value: T)
}
