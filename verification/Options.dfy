module Options {

  /** A value that may be missing: Go's nil pointer or error return, Python's None. */
  datatype Option<T> = None | Some(value: T)
}
