/** The optional value used wherever the game logic returns `null` or a value. */
module Options {
  datatype Option<+T> = None | Some(value: T)
}
