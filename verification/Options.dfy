/** An optional value: SQL's NULL, or no result. */
module Options {

  datatype Option<+T> = None | Some(value: T)
}
