/** The optional value used wherever a Java lookup may answer null. */
module Wrappers {

  datatype Option<+T> = None | Some(value: T)
}
