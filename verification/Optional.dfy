/** A value that may be missing: a nil result, an error return, a key without an entry. */
module Optional {
  datatype Option<+T> = None | Some(value: T)
}
