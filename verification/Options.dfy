/** An optional value: a missing row, an absent field, a nil reference. */
module Options {

  datatype Option<+T> = None | Some(value: T)
}
