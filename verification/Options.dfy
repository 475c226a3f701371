/** A value that may be absent: a null pointer, a missing argument, a refusal. */
module Options {
  datatype Option<+T> = None | Some(value: T)
}
