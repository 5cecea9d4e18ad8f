// A value that may be absent: the source's null pointers and missing entries.

module Options {
  datatype Option<+T> = None | Some(value: T)
}
