/** The optional-value datatype used where the router may produce nothing. */
module Wrappers {

  datatype Option<+T> = None | Some(value: T)
}
