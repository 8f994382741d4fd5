/** Kotlin's nullable lookup result, as a datatype. */
module Wrappers {

  datatype Option<+T> = None | Some(value: T)

}
