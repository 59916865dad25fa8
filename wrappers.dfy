/** The optional value used where the application state may leave a field out. */
module Wrappers {

  datatype Option<+T> = None | Some(value: T)
}
