/** A value that may be missing: AS_NULL_OFF, NULL_PADDR and null pointers in the C code. */
module Options {
  datatype Option<+T> = None | Some(value: T)
}
