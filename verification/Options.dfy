/** The optional values returned by searches and extractions. */
module Options {
  datatype Option<+T> = None | Some(value: T)
}
