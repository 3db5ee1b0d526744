/** A value that may be missing: what the program expresses by a null pointer or a failed lookup. */
module Options {

  datatype Option<+T> = None | Some(value: T)
}
