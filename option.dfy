/** The optional value the optimizer's Python code expresses with None. */
module Optional {

  datatype Option<T> = None | Some(value: T)
}
