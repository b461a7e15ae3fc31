/** An optional value: a field that may be missing, a parse that may fail. */
module Optional {
  datatype Option<T> = None | Some(value: T)
}
