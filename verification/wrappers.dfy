/** The optional value used for nullable columns and JavaScript values that may be absent. */
module Wrappers {

  datatype Option<+T> = None | Some(value: T)

}
