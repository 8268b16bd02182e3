/** An optional value: the outcome of an operation that may produce nothing,
    such as a decode attempt that fails. */
module Options {

  datatype Option<+T> = None | Some(value: T)
}
