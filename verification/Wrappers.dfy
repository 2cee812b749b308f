/** The optional-value datatype shared by the models of the engine's components. */
module Wrappers {
  /** A value that may be absent: a null pointer, a failed allocation, an array hole. */
  datatype Option<+T> = None | Some(value: T)
}
