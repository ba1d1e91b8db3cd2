/** A value that may be missing, where the programs use null, None or an untouched buffer. */
module Options {
  datatype Option<+T> = None | Some(value: T)
}
