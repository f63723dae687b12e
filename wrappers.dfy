/** Kotlin's nullable types (`T?`) as an option datatype. */
module Wrappers {

  datatype Option<+T> = None | Some(value: T)
}
