/** The optional value used for the walker's error outcome. */
module Wrappers {

  datatype Option<+T> = None | Some(value: T)

}
