/** Values that may be missing: null, undefined, or an absent property. */
module Options {
  datatype Option<+T> = None | Some(value: T)

  function Or<T>(o: Option<T>, default: T): (r: T)
  {
    if o.Some? then o.value else default
  }
}
