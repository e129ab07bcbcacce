/** The optional value used where the plugin returns `None`/`False` or a match object. */
module Options {
  datatype Option<+T> = None | Some(value: T)
}
