/** A value that may be missing: a null pointer, an index not found. */
module Options {
  datatype Option<+T> = None | Some(value: T)
}
