/** A value that may be missing: a null pointer, or an outcome there is not. */
module Options {
  datatype Option<+T> = None | Some(value: T)
}
