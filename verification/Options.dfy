// A value or none: a pointer that may be NULL, or an answer that may be missing.

module Options {

  datatype Option<+T> = None | Some(value: T)
}
