/** The result types shared by the modules of the model. */
module Wrappers {
  datatype Option<+T> = None | Some(value: T)
}
