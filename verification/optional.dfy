/** An optional value: a stored item that may be absent, or a product the
    editor may or may not have been opened on. */
module Optional {
  datatype Option<T> = None | Some(value: T)
}
