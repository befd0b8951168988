/** The optional value used for the record's nullable columns and for lookups that may find nothing. */
module Options {

  datatype Option<+T> = None | Some(value: T)
}
