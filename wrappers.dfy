/** The optional value used wherever the Kotlin source has a nullable type. */
module Wrappers {

  datatype Option<+T> = None | Some(value: T)
}
