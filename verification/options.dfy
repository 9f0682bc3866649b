/** An optional value: `None` where `handleSubmit` returns without dispatching. */
module Options {

  datatype Option<+T> = None | Some(value: T)
}
