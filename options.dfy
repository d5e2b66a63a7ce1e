/** The optional value used wherever the Python code passes or returns `None`. */
module Options {

  datatype Option<T> = None | Some(value: T)

  /** Python truthiness of an optional string: `None` and `''` are false. */
  predicate Truthy(o: Option<string>) {
    o.Some? && o.value != ""
  }
}
