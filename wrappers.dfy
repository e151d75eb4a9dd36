/** The optional value used throughout the model: an absent attribute, a failed match. */
module Wrappers {

  datatype Option<+T> = None | Some(value: T)
}
