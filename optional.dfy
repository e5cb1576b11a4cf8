/** The usual optional value: a search that may find nothing, a rule that may emit nothing. */
module Optional {
  datatype Option<T> = None | Some(value: T)
}
