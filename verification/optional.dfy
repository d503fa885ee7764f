/** A value that may be absent: the result of a step that can fail or that
    has nothing to return. */
module Optional {
  datatype Option<T> = None | Some(value: T)
}
