/** A value that may be missing: an error return, a null pointer, an empty answer. */
module Options {

  datatype Option<+T> = None | Some(value: T)
}
