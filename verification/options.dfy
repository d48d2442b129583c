/** The optional value used where the source has a pointer that may be nil or a lookup that may fail. */
module Options {
  datatype Option<+T> = None | Some(value: T)
}
