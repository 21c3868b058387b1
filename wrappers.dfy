/** The optional value used where the source can fail or has nothing to return. */
module Wrappers {

  datatype Option<+T> = None | Some(value: T)
}
