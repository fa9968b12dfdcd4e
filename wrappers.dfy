/** The optional value used for "a file or null" throughout the model. */
module Wrappers {

  datatype Option<+T> = None | Some(value: T)
}
