// The null pointers of the original, as values.
module Options {
  datatype Option<+T> = None | Some(value: T)
}
