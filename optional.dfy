/** A value that may be absent, standing for Python's `None`. */
module Optional {
  datatype Option<+T> = None | Some(value: T)
}
