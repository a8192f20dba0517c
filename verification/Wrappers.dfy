/** The optional value the other modules use where the program has an `Option`. */
module Wrappers {

  datatype Option<+T> = None | Some(value: T)
}
