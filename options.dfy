/** The optional value that stands for Python's `None` result of a failed search. */
module Options {

  datatype Option<+T> = None | Some(value: T)
}
