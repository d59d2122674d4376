/** The optional value the scorer passes around for "no table", "no prerequisite
    result" and "the external computation raised". */
module Wrappers {

  datatype Option<+T> = None | Some(value: T)
}
