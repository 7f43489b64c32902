/** A value that may be absent: the model of a pointer to a value that may be NULL. */
module Optional {
  datatype Option<+T> = None | Some(value: T)
}
