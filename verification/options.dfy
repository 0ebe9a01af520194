/** The optional value used wherever the plugin tests for a missing key or an
    invalid handle. */
module Options {

  datatype Option<+T> = None | Some(value: T)
}
