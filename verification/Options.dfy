module Options {
  /** A value that may be missing, as a null pointer is. */
  datatype Option<+T> = None | Some(value: T)
}
