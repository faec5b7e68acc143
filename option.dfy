/** A C pointer that may be NULL: `None` is NULL, `Some(s)` points at the string `s`. */
module Options {
  datatype Option<+T> = None | Some(value: T)
}
