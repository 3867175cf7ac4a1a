/** The usual Some/None datatype, standing for Python's `Optional`. */
module Options {

  datatype Option<+T> = None | Some(value: T)
}
