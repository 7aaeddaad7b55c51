/** The optional value used across the model (Kotlin's nullable and Java's Optional). */
module Wrappers {

  datatype Option<+T> = None | Some(value: T)
}
