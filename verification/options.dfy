/** An optional value: `None` where the modelled code fails or gives up. */
module Options {
  datatype Option<+T> = None | Some(value: T)
}
