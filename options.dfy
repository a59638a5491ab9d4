/** Rust's Option, used for a parsed URL that may be missing and for searches that may find nothing. */
module Options {
  datatype Option<T> = None | Some(value: T)
}
