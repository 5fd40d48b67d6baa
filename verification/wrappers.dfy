/** The optional value used for nullable fields and absent reply data. */
module Wrappers {

  datatype Option<+T> = None | Some(value: T)
}
