/** The optional value used for Kotlin's nullable types (`T?`). */
module Options {
  datatype Option<+T> = None | Some(value: T)
}
