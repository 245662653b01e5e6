/** The optional value used for parse results and for Go's nil-able `error` interface. */
module Options {
  datatype Option<+T> = None | Some(value: T)
}
