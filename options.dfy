/** The optional value used for nullable inputs and for parses that may fail. */
module Options {

  datatype Option<+T> = None | Some(value: T)
}
