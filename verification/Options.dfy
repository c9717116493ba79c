/** A value that may be absent: the null pointers and BITMAP_ERROR of the source. */
module Options {
  datatype Option<+T> = None | Some(value: T)
}
