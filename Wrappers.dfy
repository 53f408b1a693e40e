/** The optional value used for "not found" results and for parses that can fail. */
module Wrappers {

  datatype Option<T> = None | Some(value: T)

}
