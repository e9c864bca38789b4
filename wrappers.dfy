/** The optional value used for a solver answer and for a parse that fails. */
module Wrappers {
  datatype Option<T> = None | Some(value: T)
}
