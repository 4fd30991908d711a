/** The optional value shared by the modules of the player model. */
module Wrappers {

  datatype Option<T> = None | Some(value: T)
}
