/** The optional value used for SQL NULLs, widget values that may be unset,
    and parses that may fail. */
module Options {
  datatype Option<T> = None | Some(value: T)
}
