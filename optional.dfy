/** The usual Some/None datatype: an absent value, or a present one. */
module Optional {

  datatype Option<+T> = None | Some(value: T)
}
