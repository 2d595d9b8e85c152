/** The optional value used for nullable component pointers and map lookups. */
module Wrappers {

  datatype Option<+T> = None | Some(value: T)

}
