/** The optional value used for Python's `None` and JavaScript's `null`/`undefined`. */
module Options {
  datatype Option<T> = None | Some(value: T)
}
