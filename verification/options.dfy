/** An optional value, standing for Python's `Optional[T]` (`None` or a value). */
module Options {

  datatype Option<+T> = None | Some(value: T)

}
