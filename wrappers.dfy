/** Option, used for the results of parsers and of the external oracles. */
module Wrappers {

  datatype Option<+T> = None | Some(value: T)
}
