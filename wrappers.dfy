/** The optional value used for nullable columns and absent arguments. */
module Wrappers {

  datatype Option<+T> = None | Some(value: T)

}
