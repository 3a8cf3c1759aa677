// A value that may be absent: a NULL pointer, an iterator at its end, an error without a result.
module Options {
  datatype Option<T> = None | Some(value: T)
}
