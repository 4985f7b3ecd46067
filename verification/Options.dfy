/** An optional result: the error returns of the modelled functions. */
module Options {
  datatype Option<+T> = None | Some(value: T)
}
