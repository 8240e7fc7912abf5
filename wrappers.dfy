/** The optional value used for the store's `None`-able arguments and results. */
module Wrappers {

  datatype Option<+T> = None | Some(value: T)
}
