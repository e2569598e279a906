/** The outcome of an operation that may produce no value, such as parsing. */
module Wrappers {

  datatype Option<+T> = None | Some(value: T)
}
