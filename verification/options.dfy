/** The optional-value wrapper used for fallible conversions and searches. */
module Options {
  datatype Option<+T> = None | Some(value: T)
}
