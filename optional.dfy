/** The usual optional value, shared by the packet-line decoder and the round counter. */
module Optional {

  datatype Option<+T> = None | Some(value: T)
}
