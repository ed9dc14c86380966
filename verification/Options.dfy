/** The result of a C function that returns a pointer: NULL is None. */
module Options {
  datatype Option<+T> = None | Some(value: T)
}
