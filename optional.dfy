/** Swift's optional values. */
module Optional {
  datatype Option<T> = None | Some(value: T)
}
