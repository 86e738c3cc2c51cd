/** The `null` that the containers return for "nothing there". */
module Options {
  datatype Option<+T> = None | Some(value: T)
}
