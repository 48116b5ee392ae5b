/** The optional value used for missing cells and for parses that fail. */
module Wrappers {

  datatype Option<+T> = None | Some(value: T)
}
