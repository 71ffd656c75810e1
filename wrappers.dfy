/** The optional value used wherever the bots may get "nothing back":
    a missing database row, an integer literal that does not parse. */
module Wrappers {

  datatype Option<+T> = None | Some(value: T)

}
