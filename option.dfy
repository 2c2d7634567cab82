/** The usual Some/None wrapper, used for JavaScript values that may be `null`. */
module Optional {

  datatype Option<+T> = None | Some(value: T)
}
