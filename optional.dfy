/** The usual Some/None wrapper, shared by the modules of this model. */
module Optional {
  datatype Option<+T> = None | Some(value: T)
}
