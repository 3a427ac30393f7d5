/** The optional value returned by the model's parsers. */
module Options {

  datatype Option<+T> = None | Some(value: T)
}
