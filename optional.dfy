/** The usual Some/None wrapper, used for absent attributes, failed parses and missing cache entries. */
module Optional {
  datatype Option<+T> = None | Some(value: T)
}
