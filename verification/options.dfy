/** An optional value, used for lookups that may miss and for steps that may fail. */
module Options {

  datatype Option<+T> = None | Some(value: T)
}
