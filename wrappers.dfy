/** The optional-value datatype shared by the game modules. */
module Wrappers {

  datatype Option<+T> = None | Some(value: T)
}
