/** An optional value, for reads that may produce nothing. */
module Optional {
  datatype Option<T> = None | Some(value: T)
}
