/** An optional value, standing in for the `null` results of DOM and
    storage look-ups. */
module Options {

  datatype Option<+T> = None | Some(value: T)
}
