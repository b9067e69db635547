/** The optional value used wherever the PHP code may yield nothing (null, an unset key). */
module Options {
  datatype Option<+T> = None | Some(value: T)
}
