/** The optional value used wherever the Java code returns `false`/`null` for "nothing". */
module Options {

  datatype Option<+T> = None | Some(value: T)
}
