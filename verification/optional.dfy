/** The optional value used for parses that can fail. */
module Optional {

  datatype Option<+T> = None | Some(value: T)
}
