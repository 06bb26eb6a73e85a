/** The usual optional value, for lookups that may find nothing. */
module Optional {

  datatype Option<+T> = None | Some(value: T)
}
