/** The usual optional-value datatype, used by the parsers of this model. */
module Options {
  datatype Option<+T> = None | Some(value: T)
}
