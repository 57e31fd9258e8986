module Options {
  /** A value that may be absent: an invalid beat, a missing result, a name with no answer. */
  datatype Option<+T> = None | Some(value: T)
}
