/** Option, for the partial decoders of the model. */
module Wrappers {
  datatype Option<+T> = None | Some(value: T)
}
