/** The optional value used wherever the Go code returns a value together with
    an `ok` flag, or a possibly-nil interface. */
module Options {

  datatype Option<+T> = None | Some(value: T)
}
