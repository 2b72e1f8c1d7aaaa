/** An optional value: the model's stand-in for a nullable result. */
module Options {
  datatype Option<T> = None | Some(value: T)
}
