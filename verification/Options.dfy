/** A value that may be missing, such as a null pointer or a failed lookup. */
module Options {
  datatype Option<+T> = None | Some(value: T)
}
