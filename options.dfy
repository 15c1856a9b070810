/** An optional value: a null `shared_ptr` slot or a missing result. */
module Options {
  datatype Option<T> = None | Some(value: T)
}
