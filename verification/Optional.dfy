/** A value that may be missing: a null pointer, or nothing found. */
module Optional {

  datatype Option<+T> = None | Some(value: T)
}
