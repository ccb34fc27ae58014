/** A value that may be absent: a dictionary key the source reads with a
    default, or a parse that can fail. */
module Options {
  datatype Option<T> = None | Some(value: T)

  /** `d.get(key, default)`: the value if present, the default otherwise. */
  function GetOr<T>(o: Option<T>, default: T): (r: T)
    ensures o.Some? ==> r == o.value
    ensures o.None? ==> r == default
  {
    match o
    case Some(v) => v
    case None => default
  }
}
