/** The optional value returned by the inverse readers of generated names. */
module Wrappers {

  datatype Option<+T> = None | Some(value: T)

}
