/** The usual optional value, used for the memo slot and for parse results. */
module Options {
  datatype Option<+T> = None | Some(value: T)
}
