/** The optional value every other module returns where the program returns nothing. */
module Wrappers {
  datatype Option<+T> = None | Some(value: T)
}
