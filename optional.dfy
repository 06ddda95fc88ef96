/** A value that may be absent: a DOM lookup that returns `null`, an
    attribute that is not set, a query parameter that is missing. */
module Optional {

  datatype Option<T> = None | Some(value: T)

  /** `x || ''` on a value that is a string or null: a missing value and the
      empty string both become the empty string. */
  function OrEmpty(o: Option<string>): string
  {
    match o
    case None => ""
    case Some(v) => v
  }
}
