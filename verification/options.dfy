/** The optional value used wherever PHP code returns `null` or `false` for "absent". */
module Options {

  datatype Option<+T> = None | Some(value: T)
}
