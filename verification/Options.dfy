/** The optional results of the queue and of the framer. */
module Options {
  datatype Option<+T> = None | Some(value: T)
}
