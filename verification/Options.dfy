/** A value that may be missing: a null pointer, or nothing to return. */
module Options {
  datatype Option<T> = None | Some(value: T)
}
