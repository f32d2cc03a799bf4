/** Values that may be absent. */
module Options {
  datatype Option<+T> = None | Some(value: T)

  function Or<T>(o: Option<T>, default: T): T { if o.Some? then o.value else default }
}
