/** An optional value: where a source function throws or returns null, the model returns None. */
module Options {
  datatype Option<+T> = None | Some(value: T)
}
