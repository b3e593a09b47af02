/** Results that may be missing: Go's errors, where all that matters is that there was one. */
module Options {
  datatype Option<T> = None | Some(value: T)
}
