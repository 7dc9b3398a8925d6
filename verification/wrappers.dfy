/** Option, used for the outcome of a call into a model that may raise. */
module Wrappers {

  datatype Option<+T> = None | Some(value: T)
}
