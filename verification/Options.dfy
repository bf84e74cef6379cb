/** An optional value: the model's form of a pointer that may be NULL. */
module Options {
  datatype Option<+T> = None | Some(value: T)
}
