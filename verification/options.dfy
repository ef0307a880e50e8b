/** An optional value: the outcome of a reading that may fail. */
module Options {
  datatype Option<T> = None | Some(value: T)
}
