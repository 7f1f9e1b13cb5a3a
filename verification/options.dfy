/** The optional value used wherever the C code returns or accepts a possibly
    NULL pointer, or a value that may be absent. */
module Options {

  datatype Option<+T> = None | Some(value: T)
}
