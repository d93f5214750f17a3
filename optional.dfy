/** A value that may be absent: stands for the source's nullable references. */
module Optional {
  datatype Option<T> = None | Some(value: T)
}
