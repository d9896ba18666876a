/** A value that may be missing: what the source says with NULL, -1 or an empty slot. */
module Options {
  datatype Option<+T> = None | Some(value: T)
}
