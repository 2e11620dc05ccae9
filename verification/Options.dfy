/** A value that may be absent. */
module Options {
  datatype Option<+T> = Some(value: T) | None
}
