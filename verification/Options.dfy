/** A value that may be missing: a null pointer, an absent map entry, a failed search. */
module Options {
  datatype Option<+T> = None | Some(value: T)
}
