/** A value that may be missing: a nil, an absent key, a failed parse. */
module Options {
  datatype Option<+T> = None | Some(value: T)
}
