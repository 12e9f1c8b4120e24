/** The optional value used for the board's "reward earned" signal. */
module Wrappers {

  datatype Option<+T> = None | Some(value: T)

}
