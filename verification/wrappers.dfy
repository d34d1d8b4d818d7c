/** The optional value used where the Kotlin code returns a nullable result. */
module Wrappers {

  datatype Option<+T> = None | Some(value: T)
}
