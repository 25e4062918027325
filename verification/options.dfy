/** An optional value: the decoder's way of reporting input it cannot read. */
module Options {

  datatype Option<+T> = None | Some(value: T)
}
