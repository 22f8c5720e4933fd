/** An optional value: a step that either produced something or raised. */
module Options {

  datatype Option<T> = None | Some(value: T)
}
