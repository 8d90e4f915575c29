/** An optional value: Python's `Optional[T]` (None or a value). */
module Optional {

  datatype Option<+T> = None | Some(value: T)

  /** Python truthiness of an `Optional[str]`: present and not the empty string. */
  predicate Present(o: Option<string>) {
    o.Some? && o.value != ""
  }
}
