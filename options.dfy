/** The optional value used for fields that the source sometimes leaves out. */
module Options {

  datatype Option<+T> = None | Some(value: T)
}
