/** A value that may be absent: Python's None, a C pointer or status that carries nothing. */
module Options {
  datatype Option<T> = None | Some(value: T)
}
