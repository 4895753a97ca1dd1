/** Values that may be missing: the NULL pointers of the C code. */
module Options {

  datatype Option<+T> = None | Some(value: T)
}
