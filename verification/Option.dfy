/** The usual optional value: a NULL pointer, or the thing it points to. */
module Options {
  datatype Option<+T> = None | Some(value: T)
}
