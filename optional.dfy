/** An optional value: the Python code's `None` or an exception that the caller catches. */
module Optional {
  datatype Option<T> = None | Some(value: T)
}
